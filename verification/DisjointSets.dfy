/** Grouping of functions by shared dependency names (SplitSource.php, lines 3-21 and 152-193):
    a disjoint-set forest with path compression and random linking. */
module DisjointSets {

  class Forest {
    var parents: seq<nat>
    // rep[x] is the root of the tree of x; rank grows strictly towards the root and is at most top.
    ghost var rep: seq<nat>
    ghost var rank: seq<nat>
    ghost var top: nat

    ghost predicate Valid()
      reads this
    {
      && |rep| == |rank| == |parents|
      && (forall x | 0 <= x < |parents| :: ValidAt(x))
    }

    ghost predicate ValidAt(x: nat)
      requires |rep| == |rank| == |parents| && x < |parents|
      reads this
    {
      && parents[x] < |parents| && rep[x] < |parents|
      && rank[x] <= top
      && rep[parents[x]] == rep[x]
      && (parents[x] == x <==> rep[x] == x)
      && (parents[x] != x ==> rank[x] < rank[parents[x]])
      && parents[rep[x]] == rep[x]
      && (rep[x] != x ==> rank[x] < rank[rep[x]])
    }

    constructor (n: nat)
      ensures Valid() && |parents| == n && rep == seq(n, i => i)
    {
      parents := seq(n, i => i);
      rep := seq(n, i => i);
      rank := seq(n, i => 0);
      top := 0;
    }

    // Returns the root and compresses the path; the partition and the roots stay as they were.
    method Find(x: nat) returns (r: nat)
      requires Valid() && x < |parents|
      modifies `parents
      ensures Valid() && |parents| == |old(parents)|
      ensures r == rep[x] && parents[x] == r
      ensures forall y | 0 <= y < |parents| :: parents[y] == old(parents[y]) || parents[y] == rep[y]
      decreases top - rank[x]
    {
      assert ValidAt(x);
      if parents[x] != x {
        assert ValidAt(parents[x]);
        r := Find(parents[x]);
        assert ValidAt(x) && ValidAt(r);
        label linked:
        parents := parents[x := r];
        forall y | 0 <= y < |parents| ensures ValidAt(y) {
          assert old@linked(ValidAt(y)) && old@linked(ValidAt(parents[y]));
        }
      } else {
        r := x;
      }
    }

    // Merges the trees of x and y and no others, whichever root the coin picks.
    method Union(x: nat, y: nat, coin: bool)
      requires Valid() && x < |parents| && y < |parents|
      modifies this
      ensures Valid() && |parents| == |old(parents)|
      ensures forall i, j | 0 <= i < |parents| && 0 <= j < |parents| ::
                rep[i] == rep[j] <==>
                (old(rep[i]) == old(rep[j])
                 || (old(rep[i]) in {old(rep[x]), old(rep[y])} && old(rep[j]) in {old(rep[x]), old(rep[y])}))
      ensures forall i | 0 <= i < |parents| :: rep[i] in {old(rep[i]), old(rep[x]), old(rep[y])}
    {
      var a := Find(x);
      var b := Find(y);
      assert ValidAt(x) && ValidAt(y);
      if a != b {
        if coin {
          Link(a, b);
        } else {
          Link(b, a);
        }
      }
    }

    method Link(child: nat, root: nat)
      requires Valid() && child < |parents| && root < |parents| && child != root
      requires parents[child] == child && parents[root] == root
      modifies this
      ensures Valid() && |parents| == |old(parents)|
      ensures forall i | 0 <= i < |parents| :: rep[i] == if old(rep[i]) == child then root else old(rep[i])
    {
      ghost var n, was := |parents|, rep;
      assert ValidAt(child) && ValidAt(root);
      parents := parents[child := root];
      rep := seq(n, i requires 0 <= i < n => if was[i] == child then root else was[i]);
      top := top + 1;
      rank := rank[root := top];
      forall x | 0 <= x < n ensures ValidAt(x) {
        assert old(ValidAt(x));
        assert old(ValidAt(parents[x]));
      }
    }
  }

  // ---------- chains of shared names ----------

  // uses[i] is the set of dependency names of function i.
  ghost predicate Share(uses: seq<set<string>>, i: nat, j: nat) {
    i < |uses| && j < |uses| && exists name :: name in uses[i] && name in uses[j]
  }

  ghost predicate Chain(uses: seq<set<string>>, path: seq<nat>) {
    |path| > 0 && forall t | 0 <= t < |path| - 1 :: Share(uses, path[t], path[t + 1])
  }

  ghost predicate Joins(uses: seq<set<string>>, path: seq<nat>, i: nat, j: nat) {
    Chain(uses, path) && path[0] == i && path[|path| - 1] == j
  }

  // A chain of functions, each sharing some dependency name with the next, leads from i to j.
  ghost predicate Connected(uses: seq<set<string>>, i: nat, j: nat) {
    exists path: seq<nat> :: Joins(uses, path, i, j)
  }

  lemma ConnectedReflexive(uses: seq<set<string>>, i: nat)
    ensures Connected(uses, i, i)
  {
    assert Joins(uses, [i], i, i);
  }

  lemma {:induction false} Backwards(uses: seq<set<string>>, path: seq<nat>, i: nat, j: nat) returns (back: seq<nat>)
    requires Joins(uses, path, i, j)
    ensures Joins(uses, back, j, i)
  {
    if |path| == 1 {
      back := path;
    } else {
      var rest := Backwards(uses, path[1..], path[1], j);
      assert Share(uses, path[0], path[1]);
      back := rest + [i];
    }
  }

  lemma ConnectedSymmetric(uses: seq<set<string>>, i: nat, j: nat)
    requires Connected(uses, i, j)
    ensures Connected(uses, j, i)
  {
    var path :| Joins(uses, path, i, j);
    var back := Backwards(uses, path, i, j);
  }

  lemma ConnectedTransitive(uses: seq<set<string>>, i: nat, j: nat, k: nat)
    requires Connected(uses, i, j) && Connected(uses, j, k)
    ensures Connected(uses, i, k)
  {
    var p :| Joins(uses, p, i, j);
    var q :| Joins(uses, q, j, k);
    var path := p + q[1..];
    forall t | 0 <= t < |path| - 1 ensures Share(uses, path[t], path[t + 1]) {
      if t < |p| - 1 {
        assert Share(uses, p[t], p[t + 1]);
      } else {
        assert Share(uses, q[t - (|p| - 1)], q[t - (|p| - 1) + 1]);
      }
    }
    assert Joins(uses, path, i, k);
  }

  // ---------- all unions ----------

  // deps lists, under each name in use, exactly the functions that use it.
  ghost predicate DepsOf(deps: map<string, seq<nat>>, uses: seq<set<string>>) {
    && (forall name | name in deps :: Lists(deps[name], name, uses))
    && (forall i, name | 0 <= i < |uses| && name in uses[i] :: name in deps)
  }

  ghost predicate Lists(ids: seq<nat>, name: string, uses: seq<set<string>>) {
    forall id: nat :: id in ids <==> id < |uses| && name in uses[id]
  }

  // Only connected functions are together ...
  ghost predicate Sound(uses: seq<set<string>>, rep: seq<nat>) {
    forall i, j | 0 <= i < |rep| && 0 <= j < |rep| && rep[i] == rep[j] :: Connected(uses, i, j)
  }

  // ... and every function of one name is with the first function of that name.
  ghost predicate Together(ids: seq<nat>, rep: seq<nat>) {
    forall t | 0 <= t < |ids| :: ids[0] < |rep| && ids[t] < |rep| && rep[ids[t]] == rep[ids[0]]
  }

  lemma {:induction false} ChainKeepsRoot(deps: map<string, seq<nat>>, uses: seq<set<string>>, rep: seq<nat>, path: seq<nat>)
    requires DepsOf(deps, uses) && |rep| == |uses| && forall name | name in deps :: Together(deps[name], rep)
    requires Chain(uses, path) && path[0] < |rep|
    ensures path[|path| - 1] < |rep| && rep[path[|path| - 1]] == rep[path[0]]
  {
    if |path| > 1 {
      assert Share(uses, path[0], path[1]);
      var name :| name in uses[path[0]] && name in uses[path[1]];
      assert Lists(deps[name], name, uses) && Together(deps[name], rep);
      assert path[0] in deps[name] && path[1] in deps[name];
      var rest := path[1..];
      forall t | 0 <= t < |rest| - 1 ensures Share(uses, rest[t], rest[t + 1]) {
        assert Share(uses, path[t + 1], path[t + 2]);
      }
      ChainKeepsRoot(deps, uses, rep, rest);
    }
  }

  lemma UnionStaysSound(uses: seq<set<string>>, before: seq<nat>, after: seq<nat>, x: nat, y: nat)
    requires Sound(uses, before) && |after| == |before| && x < |before| && y < |before|
    requires Share(uses, x, y)
    requires forall i, j | 0 <= i < |before| && 0 <= j < |before| ::
               after[i] == after[j] ==>
               before[i] == before[j]
               || (before[i] in {before[x], before[y]} && before[j] in {before[x], before[y]})
    ensures Sound(uses, after)
  {
    assert Joins(uses, [x, y], x, y);
    ConnectedSymmetric(uses, x, y);
    forall i, j | 0 <= i < |after| && 0 <= j < |after| && after[i] == after[j] ensures Connected(uses, i, j) {
      if before[i] != before[j] {
        var u, v := if before[i] == before[x] then x else y, if before[j] == before[x] then x else y;
        ConnectedTransitive(uses, i, u, v);
        ConnectedTransitive(uses, i, v, j);
      }
    }
  }

  // After all unions two functions have the same root exactly when a chain of shared names connects them.
  method UnionAll(forest: Forest, names: seq<string>, deps: map<string, seq<nat>>, ghost uses: seq<set<string>>)
    requires forest.Valid() && forest.rep == seq(|uses|, i => i)
    requires DepsOf(deps, uses) && forall name :: name in names <==> name in deps
    modifies forest
    ensures forest.Valid() && |forest.parents| == |uses|
    ensures forall i, j | 0 <= i < |uses| && 0 <= j < |uses| ::
              forest.rep[i] == forest.rep[j] <==> Connected(uses, i, j)
  {
    ghost var n := |uses|;
    forall i: nat ensures Connected(uses, i, i) { ConnectedReflexive(uses, i); }
    for k := 0 to |names|
      invariant forest.Valid() && |forest.parents| == n
      invariant Sound(uses, forest.rep)
      invariant forall name | name in names[..k] :: Together(deps[name], forest.rep)
    {
      var ids := deps[names[k]];
      assert Lists(ids, names[k], uses);
      for t := 0 to |ids|
        invariant forest.Valid() && |forest.parents| == n
        invariant Sound(uses, forest.rep)
        invariant forall name | name in names[..k] :: Together(deps[name], forest.rep)
        invariant Together(ids[..t], forest.rep)
      {
        ghost var before := forest.rep;
        assert ids[0] in ids && ids[t] in ids;
        var coin: bool := *;
        forest.Union(ids[0], ids[t], coin);
        UnionStaysSound(uses, before, forest.rep, ids[0], ids[t]);
        forall name | name in names[..k] ensures Together(deps[name], forest.rep) {
          assert Together(deps[name], before);
        }
      }
      assert ids[..|ids|] == ids;
    }
    ghost var rep := forest.rep;
    assert names[..|names|] == names;
    forall i, j | 0 <= i < n && 0 <= j < n && Connected(uses, i, j) ensures rep[i] == rep[j] {
      var path :| Joins(uses, path, i, j);
      ChainKeepsRoot(deps, uses, rep, path);
    }
  }
}
