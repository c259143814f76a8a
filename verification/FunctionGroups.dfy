/** From functions and their dependency names to the contents of the output files
    (SplitSource.php, lines 152-202). */
module FunctionGroups {
  import opened Basics
  import opened DisjointSets
  import opened GreedyAssignment

  // ---------- dependency names ----------

  // The names a matched name stands for: parse and store count as LogEvent, or for nothing in generated files.
  function Effective(name: string, isGenerated: bool): set<string> {
    if name == "parse" || name == "store" then (if isGenerated then {} else {"LogEvent"}) else {name}
  }

  function Uses(matches: seq<string>, isGenerated: bool): set<string> {
    if matches == [] then {}
    else Uses(matches[..|matches| - 1], isGenerated) + Effective(matches[|matches| - 1], isGenerated)
  }

  // A function uses a name exactly if the name itself was matched, unless that is parse or store; for those it uses
  // LogEvent, in files that are not generated.
  lemma {:induction false} UsesAreMatches(matches: seq<string>, isGenerated: bool, name: string)
    ensures name in Uses(matches, isGenerated) <==>
            || (name in matches && name != "parse" && name != "store")
            || (name == "LogEvent" && !isGenerated && ("parse" in matches || "store" in matches))
  {
    if matches != [] {
      var n := |matches| - 1;
      UsesAreMatches(matches[..n], isGenerated, name);
      assert matches == matches[..n] + [matches[n]];
    }
  }

  function AllUses(matches: seq<seq<string>>, isGenerated: bool): (uses: seq<set<string>>)
    ensures |uses| == |matches|
  {
    seq(|matches|, i requires 0 <= i < |matches| => Uses(matches[i], isGenerated))
  }

  // matches[i] holds the names matched in function i, in order of appearance.
  method CollectDeps(matches: seq<seq<string>>, isGenerated: bool)
    returns (names: seq<string>, deps: map<string, seq<nat>>)
    ensures DepsOf(deps, AllUses(matches, isGenerated))
    ensures NoDuplicates(names) && forall name :: name in names <==> name in deps
  {
    hide DepsOf, NoDuplicates, Uses;
    names, deps := [], map[];
    ghost var uses := AllUses(matches, isGenerated);
    NoDeps();
    for i := 0 to |matches|
      invariant DepsOf(deps, uses[..i])
      invariant NoDuplicates(names) && forall name :: name in names <==> name in deps
    {
      names, deps := AddMatches(matches[i], isGenerated, i, names, deps, uses[..i]);
      assert uses[..i + 1] == uses[..i] + [Uses(matches[i], isGenerated)];
    }
    assert uses[..|matches|] == uses;
  }

  method AddMatches(matches: seq<string>, isGenerated: bool, i: nat, names: seq<string>, deps: map<string, seq<nat>>,
                    ghost uses: seq<set<string>>)
    returns (names': seq<string>, deps': map<string, seq<nat>>)
    requires |uses| == i && DepsOf(deps, uses)
    requires NoDuplicates(names) && forall name :: name in names <==> name in deps
    ensures DepsOf(deps', uses + [Uses(matches, isGenerated)])
    ensures NoDuplicates(names') && forall name :: name in names' <==> name in deps'
  {
    hide DepsOf, Effective;
    names', deps' := names, deps;
    UseNothing(deps, uses);
    for t := 0 to |matches|
      invariant DepsOf(deps', uses + [Uses(matches[..t], isGenerated)])
      invariant NoDuplicates(names') && forall name :: name in names' <==> name in deps'
    {
      ghost var used := Uses(matches[..t], isGenerated);
      assert matches[..t + 1][..t] == matches[..t];
      EffectiveNames(matches[t], isGenerated);
      if (matches[t] == "parse" || matches[t] == "store") && isGenerated {
        assert used + {} == used;
      } else {
        var name := if matches[t] == "parse" || matches[t] == "store" then "LogEvent" else matches[t];
        UseName(deps', uses + [used], i, name);
        assert (uses + [used])[i := used + {name}] == uses + [used + {name}];
        if name !in deps' {
          names' := names' + [name];
          assert [] + [i] == [i];
          deps' := deps'[name := [i]];
        } else {
          deps' := deps'[name := deps'[name] + [i]];
        }
      }
    }
    assert matches[..|matches|] == matches;
  }

  lemma NoDeps()
    ensures DepsOf(map[], [])
    ensures NoDuplicates<string>([])
  {
  }

  lemma EffectiveNames(name: string, isGenerated: bool)
    ensures Effective(name, isGenerated) ==
            if name != "parse" && name != "store" then {name} else if isGenerated then {} else {"LogEvent"}
  {
  }

  lemma UseNothing(deps: map<string, seq<nat>>, uses: seq<set<string>>)
    requires DepsOf(deps, uses)
    ensures DepsOf(deps, uses + [{}])
  {
    forall name | name in deps ensures Lists(deps[name], name, uses + [{}]) {
      assert Lists(deps[name], name, uses);
    }
  }

  lemma UseName(deps: map<string, seq<nat>>, uses: seq<set<string>>, i: nat, name: string)
    requires DepsOf(deps, uses) && i < |uses|
    ensures DepsOf(deps[name := (if name in deps then deps[name] else []) + [i]], uses[i := uses[i] + {name}])
  {
    var ids := (if name in deps then deps[name] else []) + [i];
    var deps', uses' := deps[name := ids], uses[i := uses[i] + {name}];
    forall n | n in deps' ensures Lists(deps'[n], n, uses') {
      if n in deps { assert Lists(deps[n], n, uses); }
      if n !in deps { assert forall j | 0 <= j < |uses| :: n !in uses[j]; }
    }
  }

  // ---------- sets of functions ----------

  // The first n functions with root r, in order.
  function Members(rep: seq<nat>, n: nat, r: nat): seq<nat>
    requires n <= |rep|
  {
    if n == 0 then [] else Members(rep, n - 1, r) + if rep[n - 1] == r then [n - 1] else []
  }

  predicate InBounds(ids: seq<nat>, n: nat) {
    forall k | 0 <= k < |ids| :: ids[k] < n
  }

  function Render(functions: seq<string>, ids: seq<nat>): string
    requires InBounds(ids, |functions|)
  {
    if ids == [] then ""
    else Render(functions, ids[..|ids| - 1]) + functions[ids[|ids| - 1]]
  }

  // preg_match('/Td::~?Td/', $f)
  predicate IsTd(f: string) {
    Contains(f, "Td::Td") || Contains(f, "Td::~Td")
  }

  // The constructor and destructor of Td weigh more than any file.
  function Weight(f: string): nat {
    if IsTd(f) then 1000000 else |f|
  }

  // How many of the functions are such, and how long they are together
  function TdCount(functions: seq<string>, ids: seq<nat>): nat
    requires InBounds(ids, |functions|)
  {
    if ids == [] then 0
    else TdCount(functions, ids[..|ids| - 1]) + if IsTd(functions[ids[|ids| - 1]]) then 1 else 0
  }

  function TdLength(functions: seq<string>, ids: seq<nat>): nat
    requires InBounds(ids, |functions|)
  {
    if ids == [] then 0
    else
      var f := functions[ids[|ids| - 1]];
      TdLength(functions, ids[..|ids| - 1]) + if IsTd(f) then |f| else 0
  }

  // A size is the length of the text, with 1000000 for each such function instead of its length.
  ghost predicate Measures(functions: seq<string>, ids: seq<nat>, size: nat, text: string) {
    InBounds(ids, |functions|) && size + TdLength(functions, ids) == |text| + 1000000 * TdCount(functions, ids)
  }

  lemma {:induction false} WeightMeasures(functions: seq<string>, ids: seq<nat>)
    requires InBounds(ids, |functions|)
    ensures Measures(functions, ids, TotalWeight(functions, ids), Render(functions, ids))
  {
    hide IsTd;
    if ids != [] {
      var n := |ids| - 1;
      WeightMeasures(functions, ids[..n]);
      assert Measures(functions, ids[..n], TotalWeight(functions, ids[..n]), Render(functions, ids[..n]));
    }
  }

  // Without such functions the size is the length.
  lemma {:induction false} PlainMeasure(functions: seq<string>, ids: seq<nat>, size: nat, text: string)
    requires Measures(functions, ids, size, text) && forall k | 0 <= k < |ids| :: !IsTd(functions[ids[k]])
    ensures size == |text|
  {
    NoTd(functions, ids);
  }

  lemma {:induction false} NoTd(functions: seq<string>, ids: seq<nat>)
    requires InBounds(ids, |functions|) && forall k | 0 <= k < |ids| :: !IsTd(functions[ids[k]])
    ensures TdCount(functions, ids) == TdLength(functions, ids) == 0
  {
    hide IsTd;
    if ids != [] { NoTd(functions, ids[..|ids| - 1]); }
  }

  function TotalWeight(functions: seq<string>, ids: seq<nat>): nat
    requires InBounds(ids, |functions|)
  {
    if ids == [] then 0
    else TotalWeight(functions, ids[..|ids| - 1]) + Weight(functions[ids[|ids| - 1]])
  }

  function Occurrences(ids: seq<nat>, id: nat): nat {
    if ids == [] then 0
    else Occurrences(ids[..|ids| - 1], id) + if ids[|ids| - 1] == id then 1 else 0
  }

  lemma {:induction false} OccurrencesAppend(a: seq<nat>, b: seq<nat>, id: nat)
    ensures Occurrences(a + b, id) == Occurrences(a, id) + Occurrences(b, id)
  {
    if b == [] {
      assert a + b == a;
    } else {
      OccurrencesAppend(a, b[..|b| - 1], id);
      assert (a + b)[..|a + b| - 1] == a + b[..|b| - 1];
    }
  }

  // Every function is a member of the set of its root, once, and of no other set.
  lemma {:induction false} MembersAre(rep: seq<nat>, n: nat, r: nat, id: nat)
    requires n <= |rep|
    ensures Occurrences(Members(rep, n, r), id) == if id < n && rep[id] == r then 1 else 0
  {
    if n > 0 {
      MembersAre(rep, n - 1, r, id);
      OccurrencesAppend(Members(rep, n - 1, r), if rep[n - 1] == r then [n - 1] else [], id);
    }
  }

  lemma {:induction false} MembersInBounds(rep: seq<nat>, n: nat, r: nat)
    requires n <= |rep|
    ensures InBounds(Members(rep, n, r), n)
  {
    if n > 0 { MembersInBounds(rep, n - 1, r); }
  }

  // One set for each root among the first n functions, keyed by root in order of first appearance ...
  ghost predicate Keyed(rep: seq<nat>, n: nat, order: seq<nat>, keys: set<nat>)
    requires n <= |rep|
  {
    && NoDuplicates(order)
    && (forall r :: r in order <==> r in keys)
    && (forall i | 0 <= i < n :: rep[i] in keys)
    && (forall r | r in keys :: r in rep[..n])
  }

  // ... holding the text and the weight of the functions with that root.
  ghost predicate Grouped(functions: seq<string>, rep: seq<nat>, n: nat, sets: map<nat, string>, sizes: map<nat, nat>)
    requires n <= |rep| == |functions|
  {
    && sizes.Keys == sets.Keys
    && (forall r | r in sets :: GroupedAt(functions, rep, n, sets[r], sizes[r], r))
  }

  ghost predicate GroupedAt(functions: seq<string>, rep: seq<nat>, n: nat, text: string, size: nat, r: nat)
    requires n <= |rep| == |functions|
  {
    && InBounds(Members(rep, n, r), |functions|)
    && text == Render(functions, Members(rep, n, r))
    && size == TotalWeight(functions, Members(rep, n, r))
    && Measures(functions, Members(rep, n, r), size, text)
  }

  method Group(functions: seq<string>, matches: seq<seq<string>>, isGenerated: bool)
    returns (order: seq<nat>, sets: map<nat, string>, sizes: map<nat, nat>, ghost rep: seq<nat>)
    requires |matches| == |functions|
    ensures |rep| == |functions| && Keyed(rep, |rep|, order, sets.Keys)
    ensures Grouped(functions, rep, |rep|, sets, sizes)
    ensures forall i, j | 0 <= i < |rep| && 0 <= j < |rep| ::
              rep[i] == rep[j] <==> Connected(AllUses(matches, isGenerated), i, j)
  {
    var names, deps := CollectDeps(matches, isGenerated);
    var forest := new Forest(|functions|);
    UnionAll(forest, names, deps, AllUses(matches, isGenerated));
    rep := forest.rep;
    order, sets, sizes := CollectSets(forest, functions);
  }

  // The second pass over the functions, with the partition settled.
  method CollectSets(forest: Forest, functions: seq<string>)
    returns (order: seq<nat>, sets: map<nat, string>, sizes: map<nat, nat>)
    requires forest.Valid() && |forest.rep| == |functions|
    modifies forest`parents
    ensures forest.Valid() && forest.rep == old(forest.rep)
    ensures Keyed(forest.rep, |functions|, order, sets.Keys)
    ensures Grouped(functions, forest.rep, |functions|, sets, sizes)
  {
    hide Keyed;
    ghost var rep := forest.rep;
    order, sets, sizes := [], map[], map[];
    KeyedEmpty(rep);
    assert sets.Keys == {};
    for i := 0 to |functions|
      invariant forest.Valid() && forest.rep == rep
      invariant Keyed(rep, i, order, sets.Keys)
      invariant Grouped(functions, rep, i, sets, sizes)
    {
      var parent := forest.Find(i);
      order, sets, sizes := AddToSet(functions, rep, i, parent, order, sets, sizes);
    }
  }

  method AddToSet(functions: seq<string>, ghost rep: seq<nat>, i: nat, parent: nat,
                  order: seq<nat>, sets: map<nat, string>, sizes: map<nat, nat>)
    returns (order': seq<nat>, sets': map<nat, string>, sizes': map<nat, nat>)
    requires i < |rep| == |functions| && parent == rep[i]
    requires Keyed(rep, i, order, sets.Keys) && Grouped(functions, rep, i, sets, sizes)
    ensures Keyed(rep, i + 1, order', sets'.Keys) && Grouped(functions, rep, i + 1, sets', sizes')
  {
    order' := if parent in sets then order else order + [parent];
    sets', sizes' := Grown(sets, parent, functions[i]), Weighed(sizes, parent, functions[i]);
    assert sets'.Keys == sets.Keys + {parent};
    KeyStep(rep, i, order, sets.Keys);
    GroupStep(functions, rep, i, order, sets, sizes);
  }

  // A set starts out empty and weightless and grows by one function.
  function Grown(sets: map<nat, string>, r: nat, f: string): map<nat, string> {
    sets[r := (if r in sets then sets[r] else "") + f]
  }

  function Weighed(sizes: map<nat, nat>, r: nat, f: string): map<nat, nat> {
    sizes[r := (if r in sizes then sizes[r] else 0) + Weight(f)]
  }

  lemma KeyedEmpty(rep: seq<nat>)
    ensures Keyed(rep, 0, [], {})
  {
  }

  lemma KeyStep(rep: seq<nat>, n: nat, order: seq<nat>, keys: set<nat>)
    requires n < |rep| && Keyed(rep, n, order, keys)
    ensures Keyed(rep, n + 1, if rep[n] in keys then order else order + [rep[n]], keys + {rep[n]})
  {
    assert rep[..n + 1] == rep[..n] + [rep[n]];
  }

  lemma GroupStep(functions: seq<string>, rep: seq<nat>, n: nat,
                  order: seq<nat>, sets: map<nat, string>, sizes: map<nat, nat>)
    requires n < |rep| == |functions| && Keyed(rep, n, order, sets.Keys) && Grouped(functions, rep, n, sets, sizes)
    ensures Grouped(functions, rep, n + 1, Grown(sets, rep[n], functions[n]), Weighed(sizes, rep[n], functions[n]))
  {
    hide GroupedAt, Weight, NoDuplicates;
    var r, f := rep[n], functions[n];
    var sets', sizes' := Grown(sets, r, f), Weighed(sizes, r, f);
    forall q | q in sets' ensures GroupedAt(functions, rep, n + 1, sets'[q], sizes'[q], q) {
      if q in sets {
        assert GroupedAt(functions, rep, n, sets[q], sizes[q], q);
        GroupStepAt(functions, rep, n, sets[q], sizes[q], q);
      } else {
        GroupedNothing(functions, rep, n, q);
        GroupStepAt(functions, rep, n, "", 0, q);
      }
    }
  }

  lemma GroupedNothing(functions: seq<string>, rep: seq<nat>, n: nat, q: nat)
    requires n <= |rep| == |functions| && forall i | 0 <= i < n :: rep[i] != q
    ensures GroupedAt(functions, rep, n, "", 0, q)
  {
    NoMembersYet(rep, n, q);
  }

  lemma GroupStepAt(functions: seq<string>, rep: seq<nat>, n: nat, text: string, size: nat, q: nat)
    requires n < |rep| == |functions| && GroupedAt(functions, rep, n, text, size, q)
    ensures var f := functions[n];
            if rep[n] == q then GroupedAt(functions, rep, n + 1, text + f, size + Weight(f), q)
            else GroupedAt(functions, rep, n + 1, text, size, q)
  {
    hide Measures, Weight;
    MembersInBounds(rep, n + 1, q);
    WeightMeasures(functions, Members(rep, n + 1, q));
    var ids := Members(rep, n, q);
    if rep[n] == q {
      assert (ids + [n])[..|ids|] == ids;
    } else {
      assert ids + [] == ids;
    }
  }

  lemma {:induction false} NoMembersYet(rep: seq<nat>, n: nat, r: nat)
    requires n <= |rep| && forall i | 0 <= i < n :: rep[i] != r
    ensures Members(rep, n, r) == []
  {
    if n > 0 { NoMembersYet(rep, n - 1, r); }
  }

  // ---------- largest first ----------

  ghost predicate ByDecreasingSize(order: seq<nat>, sizes: map<nat, nat>) {
    && (forall s | 0 <= s < |order| :: order[s] in sizes)
    && (forall s, t | 0 <= s < t < |order| :: sizes[order[t]] <= sizes[order[s]])
  }

  // arsort: the same keys, largest set first.
  method SortBySize(order: seq<nat>, sizes: map<nat, nat>) returns (sorted: seq<nat>)
    requires NoDuplicates(order) && forall r | r in order :: r in sizes
    ensures NoDuplicates(sorted) && (forall r :: r in sorted <==> r in order)
    ensures ByDecreasingSize(sorted, sizes)
  {
    sorted := [];
    for k := 0 to |order|
      invariant NoDuplicates(sorted) && (forall r :: r in sorted <==> r in order[..k])
      invariant ByDecreasingSize(sorted, sizes)
    {
      assert order[k] !in order[..k];
      sorted := InsertBySize(sorted, order[k], sizes);
    }
  }

  method InsertBySize(sorted: seq<nat>, r: nat, sizes: map<nat, nat>) returns (longer: seq<nat>)
    requires NoDuplicates(sorted) && r !in sorted && r in sizes && ByDecreasingSize(sorted, sizes)
    ensures NoDuplicates(longer) && (forall q :: q in longer <==> q in sorted || q == r)
    ensures ByDecreasingSize(longer, sizes)
  {
    var s := |sorted|;
    while s > 0 && sizes[sorted[s - 1]] < sizes[r]
      invariant 0 <= s <= |sorted|
      invariant forall t | s <= t < |sorted| :: sizes[sorted[t]] <= sizes[r]
    {
      s := s - 1;
    }
    longer := sorted[..s] + [r] + sorted[s..];
    InsertedInOrder(sorted, s, r, sizes, longer);
    InsertedOnce(sorted, s, r, longer);
  }

  lemma InsertedInOrder(sorted: seq<nat>, s: nat, r: nat, sizes: map<nat, nat>, longer: seq<nat>)
    requires s <= |sorted| && longer == sorted[..s] + [r] + sorted[s..]
    requires r in sizes && ByDecreasingSize(sorted, sizes)
    requires s > 0 ==> sizes[r] <= sizes[sorted[s - 1]]
    requires forall t | s <= t < |sorted| :: sizes[sorted[t]] <= sizes[r]
    ensures ByDecreasingSize(longer, sizes)
  {
    forall t | 0 <= t < s ensures sizes[r] <= sizes[sorted[t]] {
      assert t < s - 1 ==> sizes[sorted[s - 1]] <= sizes[sorted[t]];
    }
  }

  lemma InsertedOnce(sorted: seq<nat>, s: nat, r: nat, longer: seq<nat>)
    requires s <= |sorted| && longer == sorted[..s] + [r] + sorted[s..]
    requires NoDuplicates(sorted) && r !in sorted
    ensures NoDuplicates(longer) && (forall q :: q in longer <==> q in sorted || q == r)
  {
    forall q ensures q in longer <==> q in sorted || q == r {
      assert sorted == sorted[..s] + sorted[s..];
    }
  }

  // ---------- from functions to files ----------

  function Weights(functions: seq<string>): (w: seq<nat>)
    ensures |w| == |functions|
  {
    seq(|functions|, i requires 0 <= i < |functions| => Weight(functions[i]))
  }

  // A placement of functions that keeps connected functions in one file.
  ghost predicate Placement(uses: seq<set<string>>, home: seq<nat>, chunks: nat) {
    && |home| == |uses| && Assigns(home, chunks)
    && (forall i, j | 0 <= i < |uses| && 0 <= j < |uses| && Connected(uses, i, j) :: home[i] == home[j])
  }

  // Function i goes where the set of its root goes.
  ghost predicate Follows(rep: seq<nat>, sorted: seq<nat>, fileOf: seq<nat>, home: seq<nat>) {
    && |home| == |rep| && |fileOf| == |sorted|
    && (forall i, s | 0 <= i < |rep| && 0 <= s < |sorted| && rep[i] == sorted[s] :: home[i] == fileOf[s])
  }

  ghost function SetSizes(functions: seq<string>, rep: seq<nat>, n: nat, sorted: seq<nat>): (v: seq<nat>)
    requires n <= |rep| == |functions|
    ensures |v| == |sorted|
  {
    seq(|sorted|, s requires 0 <= s < |sorted| =>
      MembersInBounds(rep, n, sorted[s]); TotalWeight(functions, Members(rep, n, sorted[s])))
  }

  lemma {:induction false} LoadGrows(v: seq<nat>, o: seq<nat>, s: nat, w: nat, f: nat)
    requires |o| <= |v| && s < |v|
    ensures Load(v[s := v[s] + w], o, f) == Load(v, o, f) + if s < |o| && o[s] == f then w else 0
  {
    if o != [] { LoadGrows(v, o[..|o| - 1], s, w, f); }
  }

  lemma {:induction false} LoadOfNothing(v: seq<nat>, o: seq<nat>, f: nat)
    requires |o| <= |v| && forall s | 0 <= s < |v| :: v[s] == 0
    ensures Load(v, o, f) == 0
  {
    if o != [] { LoadOfNothing(v, o[..|o| - 1], f); }
  }

  // A file is as heavy as the functions in it, whether counted by set or by function.
  lemma {:induction false} SetsCarryFunctions(functions: seq<string>, rep: seq<nat>, n: nat,
                                              sorted: seq<nat>, o: seq<nat>, home: seq<nat>, f: nat)
    requires n <= |rep| == |functions| && Follows(rep, sorted, o, home)
    requires NoDuplicates(sorted) && forall i | 0 <= i < n :: rep[i] in sorted
    ensures Load(SetSizes(functions, rep, n, sorted), o, f) == Load(Weights(functions), home[..n], f)
  {
    hide Weight, NoDuplicates, Load, SetSizes, Weights;
    if n == 0 {
      SetsStartEmpty(functions, rep, sorted, o, home, f);
    } else {
      SetsCarryFunctions(functions, rep, n - 1, sorted, o, home, f);
      var s := SetSizesStep(functions, rep, n, sorted);
      LoadGrows(SetSizes(functions, rep, n - 1, sorted), o, s, Weight(functions[n - 1]), f);
      OneMoreWeight(functions, home, n, f);
    }
  }

  lemma SetsStartEmpty(functions: seq<string>, rep: seq<nat>, sorted: seq<nat>, o: seq<nat>, home: seq<nat>, f: nat)
    requires |rep| == |functions| && |o| <= |sorted|
    ensures Load(SetSizes(functions, rep, 0, sorted), o, f) == Load(Weights(functions), home[..0], f) == 0
  {
    hide Weight;
    LoadOfNothing(SetSizes(functions, rep, 0, sorted), o, f);
  }

  lemma OneMoreWeight(functions: seq<string>, home: seq<nat>, n: nat, f: nat)
    requires 0 < n <= |functions| == |home|
    ensures Load(Weights(functions), home[..n], f)
         == Load(Weights(functions), home[..n - 1], f) + if home[n - 1] == f then Weight(functions[n - 1]) else 0
  {
    hide Weight;
    assert home[..n][..n - 1] == home[..n - 1];
  }

  // Function n - 1 adds its weight to the set of its root and to no other.
  // One more function weighs on the set of its root and on no other.
  lemma MembersWeigh(functions: seq<string>, rep: seq<nat>, n: nat, r: nat)
    requires 0 < n <= |rep| == |functions|
    ensures InBounds(Members(rep, n - 1, r), |functions|) && InBounds(Members(rep, n, r), |functions|)
    ensures TotalWeight(functions, Members(rep, n, r))
         == TotalWeight(functions, Members(rep, n - 1, r)) + if rep[n - 1] == r then Weight(functions[n - 1]) else 0
  {
    hide Weight;
    var ids := Members(rep, n - 1, r);
    MembersInBounds(rep, n - 1, r);
    MembersInBounds(rep, n, r);
    assert (ids + [n - 1])[..|ids|] == ids && ids + [] == ids;
  }

  lemma SetSizesStep(functions: seq<string>, rep: seq<nat>, n: nat, sorted: seq<nat>) returns (s: nat)
    requires 0 < n <= |rep| == |functions| && NoDuplicates(sorted) && rep[n - 1] in sorted
    ensures s < |sorted| && sorted[s] == rep[n - 1]
    ensures var v := SetSizes(functions, rep, n - 1, sorted);
            SetSizes(functions, rep, n, sorted) == v[s := v[s] + Weight(functions[n - 1])]
  {
    hide Weight, TotalWeight, Members, InBounds;
    s :| 0 <= s < |sorted| && sorted[s] == rep[n - 1];
    var v, v' := SetSizes(functions, rep, n - 1, sorted), SetSizes(functions, rep, n, sorted);
    forall t | 0 <= t < |sorted| ensures v'[t] == if t == s then v[t] + Weight(functions[n - 1]) else v[t] {
      MembersWeigh(functions, rep, n, sorted[t]);
      assert t != s ==> sorted[t] != rep[n - 1];
    }
  }

  // The functions of each set, in the order of the sets.
  ghost function MemberLists(rep: seq<nat>, sorted: seq<nat>): (lists: seq<seq<nat>>)
    ensures |lists| == |sorted|
  {
    seq(|sorted|, s requires 0 <= s < |sorted| => Members(rep, |rep|, sorted[s]))
  }

  lemma {:induction false} RenderAppend(functions: seq<string>, a: seq<nat>, b: seq<nat>)
    requires InBounds(a, |functions|) && InBounds(b, |functions|)
    ensures Render(functions, a + b) == Render(functions, a) + Render(functions, b)
  {
    if b == [] {
      assert a + b == a;
    } else {
      RenderAppend(functions, a, b[..|b| - 1]);
      assert (a + b)[..|a + b| - 1] == a + b[..|b| - 1];
    }
  }

  // The text of a file is the text of the functions in it.
  lemma {:induction false} RenderJoined(functions: seq<string>, lists: seq<seq<nat>>, texts: seq<string>, a: seq<nat>, f: nat)
    requires |a| <= |lists| == |texts|
    requires forall s | 0 <= s < |lists| :: InBounds(lists[s], |functions|) && texts[s] == Render(functions, lists[s])
    ensures InBounds(Joined(lists, a, f), |functions|)
    ensures Joined(texts, a, f) == Render(functions, Joined(lists, a, f))
  {
    if a != [] {
      var i := |a| - 1;
      RenderJoined(functions, lists, texts, a[..i], f);
      RenderAppend(functions, Joined(lists, a[..i], f), if a[i] == f then lists[i] else []);
    }
  }

  lemma {:induction false} WeightAppend(functions: seq<string>, a: seq<nat>, b: seq<nat>)
    requires InBounds(a, |functions|) && InBounds(b, |functions|)
    ensures TotalWeight(functions, a + b) == TotalWeight(functions, a) + TotalWeight(functions, b)
  {
    hide Weight;
    if b == [] {
      assert a + b == a;
    } else {
      WeightAppend(functions, a, b[..|b| - 1]);
      assert (a + b)[..|a + b| - 1] == a + b[..|b| - 1];
    }
  }

  // The size of a file is the weight of the functions in it.
  lemma {:induction false} WeightJoined(functions: seq<string>, lists: seq<seq<nat>>, sizes: seq<nat>, a: seq<nat>, f: nat)
    requires |a| <= |lists| == |sizes|
    requires forall s | 0 <= s < |lists| :: InBounds(lists[s], |functions|) && sizes[s] == TotalWeight(functions, lists[s])
    ensures InBounds(Joined(lists, a, f), |functions|)
    ensures Load(sizes, a, f) == TotalWeight(functions, Joined(lists, a, f))
  {
    hide Weight;
    if a != [] {
      var i := |a| - 1;
      WeightJoined(functions, lists, sizes, a[..i], f);
      WeightAppend(functions, Joined(lists, a[..i], f), if a[i] == f then lists[i] else []);
    }
  }

  // What occurs once in list s and in no other list occurs once in the file of list s and in no other file.
  lemma {:induction false} JoinedOnce(lists: seq<seq<nat>>, a: seq<nat>, f: nat, id: nat, s: nat)
    requires |a| <= |lists| && forall t | 0 <= t < |lists| :: Occurrences(lists[t], id) == if t == s then 1 else 0
    ensures Occurrences(Joined(lists, a, f), id) == if s < |a| && a[s] == f then 1 else 0
  {
    if a != [] {
      var i := |a| - 1;
      JoinedOnce(lists, a[..i], f, id, s);
      OccurrencesAppend(Joined(lists, a[..i], f), if a[i] == f then lists[i] else [], id);
    }
  }

  // File f is the text of the functions contents[f] ...
  ghost predicate Renders(functions: seq<string>, files: seq<string>, contents: seq<seq<nat>>) {
    && |contents| == |files|
    && (forall f | 0 <= f < |files| :: InBounds(contents[f], |functions|) && files[f] == Render(functions, contents[f]))
  }

  // ... and function i occurs once in file home[i] and nowhere else.
  ghost predicate EachOnce(contents: seq<seq<nat>>, home: seq<nat>) {
    forall i, f | 0 <= i < |home| && 0 <= f < |contents| :: Occurrences(contents[f], i) == if home[i] == f then 1 else 0
  }

  // No placement that keeps connected functions together has a much smaller biggest file.
  ghost predicate NearlyBest(functions: seq<string>, uses: seq<set<string>>, fileSizes: seq<nat>)
    requires |uses| == |functions|
  {
    var m := |fileSizes|;
    forall other: seq<nat>, cap: nat, f |
      Placement(uses, other, m) && WithinCap(Weights(functions), other, m, cap) && 0 <= f < m ::
      3 * m * fileSizes[f] <= (4 * m - 1) * cap
  }

  ghost predicate WithinCap(weights: seq<nat>, home: seq<nat>, m: nat, cap: nat)
    requires |home| <= |weights|
  {
    forall g | 0 <= g < m :: Load(weights, home, g) <= cap
  }

  // Lines 152-202 as a whole: each function lands in exactly one file, connected functions land together,
  // and the biggest file is within four thirds of the best that can be done.
  method SplitFunctions(functions: seq<string>, matches: seq<seq<string>>, isGenerated: bool, chunks: nat)
    returns (files: seq<string>, fileSizes: seq<nat>, ghost home: seq<nat>, ghost contents: seq<seq<nat>>)
    requires |matches| == |functions| && chunks >= 1
    ensures |files| == |fileSizes| == chunks
    ensures Placement(AllUses(matches, isGenerated), home, chunks)
    ensures Renders(functions, files, contents) && EachOnce(contents, home)
    ensures forall f | 0 <= f < chunks :: Measures(functions, contents[f], fileSizes[f], files[f])
    ensures forall f | 0 <= f < chunks && (forall k | 0 <= k < |contents[f]| :: !IsTd(functions[contents[f][k]])) ::
              fileSizes[f] == |files[f]|
    ensures forall f | 0 <= f < chunks :: fileSizes[f] == Load(Weights(functions), home, f)
    ensures NearlyBest(functions, AllUses(matches, isGenerated), fileSizes)
  {
    hide GroupedAt, Greedy, Load, Connected, Weight, Weights, Joined, Descending, Renders, EachOnce, NearlyBest;
    hide NoDuplicates, AllUses, MemberLists, Measures, IsTd;
    var order, sets, sizes, rep := Group(functions, matches, isGenerated);
    var sorted, texts, setSizes := SortSets(functions, rep, order, sets, sizes);
    var fileOf;
    files, fileSizes, fileOf := Assign(texts, setSizes, chunks);
    home := HomeOf(rep, sorted, fileOf, chunks);
    contents := seq(chunks, f requires 0 <= f => Joined(MemberLists(rep, sorted), fileOf, f));
    FilesRender(functions, rep, sorted, texts, setSizes, fileOf, files, contents);
    FilesHoldOnce(rep, sorted, fileOf, home, contents);
    FilesMeasure(functions, rep, sorted, texts, setSizes, fileOf, files, fileSizes, contents);
    FilesWeigh(functions, rep, sorted, texts, setSizes, fileOf, home, fileSizes);
    FilesAreNearlyBest(functions, AllUses(matches, isGenerated), rep, sorted, texts, setSizes, fileOf, fileSizes);
  }

  method SortSets(functions: seq<string>, ghost rep: seq<nat>, order: seq<nat>, sets: map<nat, string>, sizes: map<nat, nat>)
    returns (sorted: seq<nat>, texts: seq<string>, setSizes: seq<nat>)
    requires |rep| == |functions| && Keyed(rep, |rep|, order, sets.Keys) && Grouped(functions, rep, |rep|, sets, sizes)
    ensures SortedSets(functions, rep, sorted, texts, setSizes)
  {
    hide GroupedAt, NoDuplicates;
    sorted := SortBySize(order, sizes);
    texts := seq(|sorted|, s requires 0 <= s < |sorted| && sorted[s] in sets => sets[sorted[s]]);
    setSizes := seq(|sorted|, s requires 0 <= s < |sorted| && sorted[s] in sizes => sizes[sorted[s]]);
    SetsAreSorted(functions, rep, order, sets, sizes, sorted, texts, setSizes);
  }

  ghost function HomeOf(rep: seq<nat>, sorted: seq<nat>, fileOf: seq<nat>, chunks: nat): (home: seq<nat>)
    requires |fileOf| == |sorted| && Assigns(fileOf, chunks) && NoDuplicates(sorted)
    requires forall i | 0 <= i < |rep| :: rep[i] in sorted
    ensures Follows(rep, sorted, fileOf, home) && Assigns(home, chunks)
    ensures forall i, j | 0 <= i < |rep| && 0 <= j < |rep| && rep[i] == rep[j] :: home[i] == home[j]
  {
    seq(|rep|, i requires 0 <= i < |rep| => var s :| 0 <= s < |sorted| && sorted[s] == rep[i]; fileOf[s])
  }

  // The sets in sorted order, with their texts and sizes.
  ghost predicate SortedSets(functions: seq<string>, rep: seq<nat>, sorted: seq<nat>, texts: seq<string>, sizes: seq<nat>) {
    && |rep| == |functions| && |texts| == |sizes| == |sorted|
    && NoDuplicates(sorted) && (forall i | 0 <= i < |rep| :: rep[i] in sorted) && (forall r | r in sorted :: r in rep)
    && Descending(sizes)
    && (forall s | 0 <= s < |sorted| :: GroupedAt(functions, rep, |rep|, texts[s], sizes[s], sorted[s]))
  }

  lemma SetsAreSorted(functions: seq<string>, rep: seq<nat>, order: seq<nat>, sets: map<nat, string>, sizes: map<nat, nat>,
                      sorted: seq<nat>, texts: seq<string>, setSizes: seq<nat>)
    requires |rep| == |functions| && Keyed(rep, |rep|, order, sets.Keys) && Grouped(functions, rep, |rep|, sets, sizes)
    requires NoDuplicates(sorted) && (forall r :: r in sorted <==> r in order) && ByDecreasingSize(sorted, sizes)
    requires |texts| == |setSizes| == |sorted|
    requires forall s | 0 <= s < |sorted| :: sorted[s] in sets && texts[s] == sets[sorted[s]] && setSizes[s] == sizes[sorted[s]]
    ensures SortedSets(functions, rep, sorted, texts, setSizes)
  {
    assert rep[..|rep|] == rep;
  }

  lemma FilesRender(functions: seq<string>, rep: seq<nat>, sorted: seq<nat>, texts: seq<string>, sizes: seq<nat>,
                    fileOf: seq<nat>, files: seq<string>, contents: seq<seq<nat>>)
    requires SortedSets(functions, rep, sorted, texts, sizes) && |fileOf| == |sorted|
    requires |contents| == |files|
    requires forall f | 0 <= f < |files| ::
               files[f] == Joined(texts, fileOf, f) && contents[f] == Joined(MemberLists(rep, sorted), fileOf, f)
    ensures Renders(functions, files, contents)
  {
    var lists := MemberLists(rep, sorted);
    forall s | 0 <= s < |sorted| ensures InBounds(lists[s], |functions|) && texts[s] == Render(functions, lists[s]) {
      assert GroupedAt(functions, rep, |rep|, texts[s], sizes[s], sorted[s]);
    }
    forall f | 0 <= f < |files| ensures InBounds(contents[f], |functions|) && files[f] == Render(functions, contents[f]) {
      RenderJoined(functions, lists, texts, fileOf, f);
    }
  }

  lemma FilesMeasure(functions: seq<string>, rep: seq<nat>, sorted: seq<nat>, texts: seq<string>, sizes: seq<nat>,
                     fileOf: seq<nat>, files: seq<string>, fileSizes: seq<nat>, contents: seq<seq<nat>>)
    requires SortedSets(functions, rep, sorted, texts, sizes) && |fileOf| == |sorted|
    requires |contents| == |files| == |fileSizes| && Renders(functions, files, contents)
    requires forall f | 0 <= f < |files| ::
               fileSizes[f] == Load(sizes, fileOf, f) && contents[f] == Joined(MemberLists(rep, sorted), fileOf, f)
    ensures forall f | 0 <= f < |files| :: Measures(functions, contents[f], fileSizes[f], files[f])
    ensures forall f | 0 <= f < |files| && (forall k | 0 <= k < |contents[f]| :: !IsTd(functions[contents[f][k]])) ::
              fileSizes[f] == |files[f]|
  {
    hide Load, Joined, Render, TotalWeight, Measures, IsTd, NoDuplicates, Descending, Members;
    var lists := MemberLists(rep, sorted);
    forall s | 0 <= s < |sorted| ensures InBounds(lists[s], |functions|) && sizes[s] == TotalWeight(functions, lists[s]) {
      assert GroupedAt(functions, rep, |rep|, texts[s], sizes[s], sorted[s]);
    }
    forall f | 0 <= f < |files| ensures Measures(functions, contents[f], fileSizes[f], files[f]) {
      WeightJoined(functions, lists, sizes, fileOf, f);
      WeightMeasures(functions, contents[f]);
    }
    forall f | 0 <= f < |files| && (forall k | 0 <= k < |contents[f]| :: !IsTd(functions[contents[f][k]]))
      ensures fileSizes[f] == |files[f]|
    {
      PlainMeasure(functions, contents[f], fileSizes[f], files[f]);
    }
  }

  lemma FilesHoldOnce(rep: seq<nat>, sorted: seq<nat>, fileOf: seq<nat>, home: seq<nat>, contents: seq<seq<nat>>)
    requires NoDuplicates(sorted) && (forall i | 0 <= i < |rep| :: rep[i] in sorted)
    requires Follows(rep, sorted, fileOf, home)
    requires forall f | 0 <= f < |contents| :: contents[f] == Joined(MemberLists(rep, sorted), fileOf, f)
    ensures EachOnce(contents, home)
  {
    forall i, f | 0 <= i < |home| && 0 <= f < |contents|
      ensures Occurrences(contents[f], i) == if home[i] == f then 1 else 0
    {
      var s :| 0 <= s < |sorted| && sorted[s] == rep[i];
      var lists := MemberLists(rep, sorted);
      forall t | 0 <= t < |lists| ensures Occurrences(lists[t], i) == if t == s then 1 else 0 {
        MembersAre(rep, |rep|, sorted[t], i);
      }
      JoinedOnce(lists, fileOf, f, i, s);
    }
  }

  lemma SizesAreSetSizes(functions: seq<string>, rep: seq<nat>, sorted: seq<nat>, texts: seq<string>, sizes: seq<nat>)
    requires SortedSets(functions, rep, sorted, texts, sizes)
    ensures sizes == SetSizes(functions, rep, |rep|, sorted)
  {
    forall s | 0 <= s < |sorted| ensures sizes[s] == SetSizes(functions, rep, |rep|, sorted)[s] {
      assert GroupedAt(functions, rep, |rep|, texts[s], sizes[s], sorted[s]);
    }
  }

  lemma FilesWeigh(functions: seq<string>, rep: seq<nat>, sorted: seq<nat>, texts: seq<string>, sizes: seq<nat>,
                   fileOf: seq<nat>, home: seq<nat>, fileSizes: seq<nat>)
    requires SortedSets(functions, rep, sorted, texts, sizes) && Follows(rep, sorted, fileOf, home)
    requires forall f | 0 <= f < |fileSizes| :: fileSizes[f] == Load(sizes, fileOf, f)
    ensures forall f | 0 <= f < |fileSizes| :: fileSizes[f] == Load(Weights(functions), home, f)
  {
    SizesAreSetSizes(functions, rep, sorted, texts, sizes);
    assert home[..|rep|] == home;
    forall f | 0 <= f < |fileSizes| ensures fileSizes[f] == Load(Weights(functions), home, f) {
      SetsCarryFunctions(functions, rep, |rep|, sorted, fileOf, home, f);
    }
  }

  lemma FilesAreNearlyBest(functions: seq<string>, uses: seq<set<string>>, rep: seq<nat>, sorted: seq<nat>,
                           texts: seq<string>, sizes: seq<nat>, fileOf: seq<nat>, fileSizes: seq<nat>)
    requires SortedSets(functions, rep, sorted, texts, sizes) && |uses| == |functions|
    requires forall i, j | 0 <= i < |rep| && 0 <= j < |rep| && rep[i] == rep[j] :: Connected(uses, i, j)
    requires |fileSizes| >= 1 && |fileOf| == |sorted| && Greedy(sizes, fileOf, |fileSizes|)
    requires forall f | 0 <= f < |fileSizes| :: fileSizes[f] == Load(sizes, fileOf, f)
    ensures NearlyBest(functions, uses, fileSizes)
  {
    hide GroupedAt, Connected, Weight, Weights, Greedy, Load;
    var m := |fileSizes|;
    forall other: seq<nat>, cap: nat, f |
      Placement(uses, other, m) && WithinCap(Weights(functions), other, m, cap) && 0 <= f < m
      ensures 3 * m * fileSizes[f] <= (4 * m - 1) * cap
    {
      var o := SetHomes(uses, rep, sorted, other, m);
      SizesAreSetSizes(functions, rep, sorted, texts, sizes);
      assert other[..|rep|] == other;
      forall g | 0 <= g < m ensures Load(sizes, o, g) <= cap {
        SetsCarryFunctions(functions, rep, |rep|, sorted, o, other, g);
      }
      GreedyIsWithinFourThirds(sizes, fileOf, o, m, f, cap);
    }
  }

  // A placement that keeps connected functions together places whole sets.
  ghost function SetHomes(uses: seq<set<string>>, rep: seq<nat>, sorted: seq<nat>, home: seq<nat>, m: nat): (o: seq<nat>)
    requires |rep| == |uses| && Placement(uses, home, m) && forall r | r in sorted :: r in rep
    requires forall i, j | 0 <= i < |rep| && 0 <= j < |rep| && rep[i] == rep[j] :: Connected(uses, i, j)
    ensures Follows(rep, sorted, o, home) && Assigns(o, m)
  {
    seq(|sorted|, s requires 0 <= s < |sorted| =>
      assert sorted[s] in rep; var i :| 0 <= i < |rep| && rep[i] == sorted[s]; home[i])
  }
}
