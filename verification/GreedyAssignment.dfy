/** The largest-first assignment of function sets to output files (SplitSource.php, lines 194-202).

    The sets come in the order `arsort` leaves them, largest first; set `i` has size `sizes[i]`, and
    an assignment is a sequence `a` where set `i` goes to file `a[i]`. */
module GreedyAssignment {

  // What file f receives from the first |a| sets, each set i counting for values[i].
  function Load(values: seq<nat>, a: seq<nat>, f: nat): nat
    requires |a| <= |values|
  {
    if a == [] then 0
    else
      var i := |a| - 1;
      Load(values, a[..i], f) + if a[i] == f then values[i] else 0
  }

  function Total(values: seq<nat>): nat {
    if values == [] then 0 else Total(values[..|values| - 1]) + values[|values| - 1]
  }

  ghost function SumLoads(values: seq<nat>, a: seq<nat>, m: nat): nat
    requires |a| <= |values|
  {
    if m == 0 then 0 else SumLoads(values, a, m - 1) + Load(values, a, m - 1)
  }

  ghost predicate Assigns(a: seq<nat>, m: nat) {
    forall i | 0 <= i < |a| :: a[i] < m
  }

  ghost predicate Descending(sizes: seq<nat>) {
    forall i, j | 0 <= i < j < |sizes| :: sizes[j] <= sizes[i]
  }

  // Every set went to the first of the smallest files at its turn.
  ghost predicate Greedy(sizes: seq<nat>, a: seq<nat>, m: nat)
    requires |a| <= |sizes|
  {
    forall i | 0 <= i < |a| :: GreedyAt(sizes, a, m, i)
  }

  ghost predicate GreedyAt(sizes: seq<nat>, a: seq<nat>, m: nat, i: nat)
    requires i < |a| <= |sizes|
  {
    && a[i] < m
    && (forall f | 0 <= f < m :: Load(sizes, a[..i], a[i]) <= Load(sizes, a[..i], f))
    && (forall f | 0 <= f < a[i] :: Load(sizes, a[..i], a[i]) < Load(sizes, a[..i], f))
  }

  // The text file f receives: its sets, joined in the order they were assigned.
  function Joined<T>(sets: seq<seq<T>>, a: seq<nat>, f: nat): seq<T>
    requires |a| <= |sets|
  {
    if a == [] then []
    else
      var i := |a| - 1;
      Joined(sets, a[..i], f) + if a[i] == f then sets[i] else []
  }

  // array_search(min($file_sizes), $file_sizes)
  method FirstSmallest(fileSizes: seq<nat>) returns (id: nat)
    requires fileSizes != []
    ensures id < |fileSizes|
    ensures forall f | 0 <= f < |fileSizes| :: fileSizes[id] <= fileSizes[f]
    ensures forall f | 0 <= f < id :: fileSizes[id] < fileSizes[f]
  {
    id := 0;
    for k := 1 to |fileSizes|
      invariant id < k
      invariant forall f | 0 <= f < k :: fileSizes[id] <= fileSizes[f]
      invariant forall f | 0 <= f < id :: fileSizes[id] < fileSizes[f]
    {
      if fileSizes[k] < fileSizes[id] {
        id := k;
      }
    }
  }

  lemma NothingAssigned(sizes: seq<nat>, sets: seq<string>, m: nat)
    ensures Greedy(sizes, [], m) && forall f: nat :: Load(sizes, [], f) == 0 && Joined(sets, [], f) == ""
  {
  }

  lemma LoadsGrow(values: seq<nat>, a: seq<nat>, id: nat)
    requires |a| < |values|
    ensures forall f: nat :: Load(values, a + [id], f) == Load(values, a, f) + if f == id then values[|a|] else 0
  {
    assert (a + [id])[..|a|] == a;
  }

  lemma TextsGrow<T>(sets: seq<seq<T>>, a: seq<nat>, id: nat)
    requires |a| < |sets|
    ensures forall f: nat :: Joined(sets, a + [id], f) == if f == id then Joined(sets, a, f) + sets[|a|] else Joined(sets, a, f)
  {
    assert (a + [id])[..|a|] == a;
    assert forall f: nat :: Joined(sets, a, f) + [] == Joined(sets, a, f);
  }

  lemma GreedyGrows(sizes: seq<nat>, a: seq<nat>, m: nat, id: nat)
    requires |a| < |sizes| && Greedy(sizes, a, m) && id < m
    requires forall f | 0 <= f < m :: Load(sizes, a, id) <= Load(sizes, a, f)
    requires forall f | 0 <= f < id :: Load(sizes, a, id) < Load(sizes, a, f)
    ensures Greedy(sizes, a + [id], m)
  {
    hide Load;
    var a' := a + [id];
    forall i | 0 <= i < |a'| ensures GreedyAt(sizes, a', m, i) {
      if i < |a| {
        assert GreedyAt(sizes, a, m, i) && a'[..i] == a[..i];
      } else {
        assert a'[..i] == a;
      }
    }
  }

  method Assign(sets: seq<string>, sizes: seq<nat>, chunks: nat)
    returns (files: seq<string>, fileSizes: seq<nat>, fileOf: seq<nat>)
    requires |sets| == |sizes|
    requires chunks >= 1
    ensures |files| == |fileSizes| == chunks && |fileOf| == |sets|
    ensures Assigns(fileOf, chunks) && Greedy(sizes, fileOf, chunks)
    ensures forall f | 0 <= f < chunks :: fileSizes[f] == Load(sizes, fileOf, f)
    ensures forall f | 0 <= f < chunks :: files[f] == Joined(sets, fileOf, f)
  {
    NothingAssigned(sizes, sets, chunks);
    hide Load, Joined, Greedy;
    files := seq(chunks, _ => "");
    fileSizes := seq(chunks, _ => 0);
    fileOf := [];
    for i := 0 to |sets|
      invariant |files| == |fileSizes| == chunks && |fileOf| == i
      invariant Assigns(fileOf, chunks) && Greedy(sizes, fileOf, chunks)
      invariant forall f | 0 <= f < chunks :: fileSizes[f] == Load(sizes, fileOf, f)
      invariant forall f | 0 <= f < chunks :: files[f] == Joined(sets, fileOf, f)
    {
      var id := FirstSmallest(fileSizes);
      GreedyGrows(sizes, fileOf, chunks, id);
      LoadsGrow(sizes, fileOf, id);
      TextsGrow(sets, fileOf, id);
      files := files[id := files[id] + sets[i]];
      fileSizes := fileSizes[id := fileSizes[id] + sizes[i]];
      fileOf := fileOf + [id];
    }
  }

  // ---------- sums of loads ----------

  lemma {:induction false} SumLoadsStep(values: seq<nat>, a: seq<nat>, m: nat)
    requires 0 < |a| <= |values|
    ensures SumLoads(values, a, m)
         == SumLoads(values, a[..|a| - 1], m) + if a[|a| - 1] < m then values[|a| - 1] else 0
  {
    if m > 0 { SumLoadsStep(values, a, m - 1); }
  }

  lemma {:induction false} SumLoadsEmpty(values: seq<nat>, m: nat)
    ensures SumLoads(values, [], m) == 0
  {
    if m > 0 { SumLoadsEmpty(values, m - 1); }
  }

  // Nothing is lost or counted twice: the files together hold everything assigned.
  lemma {:induction false} LoadsConserve(values: seq<nat>, a: seq<nat>, m: nat)
    requires |a| <= |values| && Assigns(a, m)
    ensures SumLoads(values, a, m) == Total(values[..|a|])
  {
    if a == [] {
      SumLoadsEmpty(values, m);
    } else {
      var i := |a| - 1;
      SumLoadsStep(values, a, m);
      LoadsConserve(values, a[..i], m);
      assert values[..|a|][..i] == values[..i];
    }
  }

  lemma {:induction false} SumLoadsAtMost(values: seq<nat>, a: seq<nat>, m: nat, cap: nat)
    requires |a| <= |values|
    requires forall f | 0 <= f < m :: Load(values, a, f) <= cap
    ensures SumLoads(values, a, m) <= m * cap
  {
    if m > 0 {
      SumLoadsAtMost(values, a, m - 1, cap);
      assert m * cap == (m - 1) * cap + cap;
    }
  }

  lemma {:induction false} SumLoadsAtLeast(values: seq<nat>, a: seq<nat>, m: nat, floor: nat)
    requires |a| <= |values|
    requires forall f | 0 <= f < m :: Load(values, a, f) >= floor
    ensures SumLoads(values, a, m) >= m * floor
  {
    if m > 0 {
      SumLoadsAtLeast(values, a, m - 1, floor);
      assert m * floor == (m - 1) * floor + floor;
    }
  }

  lemma {:induction false} LoadOfPrefix(values: seq<nat>, a: seq<nat>, k: nat, f: nat)
    requires k <= |a| <= |values|
    ensures Load(values, a[..k], f) <= Load(values, a, f)
  {
    if k < |a| {
      LoadOfPrefix(values, a[..|a| - 1], k, f);
      assert a[..|a| - 1][..k] == a[..k];
    } else {
      assert a[..k] == a;
    }
  }

  // ---------- the last set of a file ----------

  // A file that holds anything has a last set i: since i arrived nothing was added to it.
  lemma {:induction false} LastSet(values: seq<nat>, a: seq<nat>, f: nat) returns (i: nat)
    requires |a| <= |values| && Load(values, a, f) > 0
    ensures i < |a| && a[i] == f
    ensures forall j | i < j < |a| :: a[j] != f
    ensures Load(values, a, f) == Load(values, a[..i], f) + values[i]
  {
    var n := |a| - 1;
    if a[n] == f {
      i := n;
    } else {
      i := LastSet(values, a[..n], f);
      assert a[..n][..i] == a[..i];
    }
  }

  // Without its last set, a file is no bigger than any other file ends up.
  lemma AllButLastIsSmallest(sizes: seq<nat>, a: seq<nat>, m: nat, f: nat, g: nat)
    requires |a| == |sizes| && Greedy(sizes, a, m)
    requires f < m && g < m && Load(sizes, a, f) > 0
    ensures exists i | 0 <= i < |a| ::
              a[i] == f && (forall j | i < j < |a| :: a[j] != f) && Load(sizes, a, f) - sizes[i] <= Load(sizes, a, g)
  {
    var i := LastSet(sizes, a, f);
    assert GreedyAt(sizes, a, m, i);
    LoadOfPrefix(sizes, a, i, g);
  }

  // ---------- the four-thirds bound ----------

  // Relative to a capacity and a smallest set p: a set that cannot share a file counts for two places.
  function Places(sizes: seq<nat>, p: nat, cap: nat): (w: seq<nat>)
    ensures |w| == |sizes|
  {
    seq(|sizes|, i requires 0 <= i < |sizes| => if sizes[i] + p > cap then 2 else 1)
  }

  // Where p is more than a third of the capacity, a file within capacity uses at most two places.
  lemma {:induction false} TwoPlacesSuffice(sizes: seq<nat>, o: seq<nat>, f: nat, p: nat, cap: nat)
    requires |o| <= |sizes| && 3 * p > cap
    requires forall i | 0 <= i < |o| :: sizes[i] >= p
    requires Load(sizes, o, f) <= cap
    ensures var s, w := Load(sizes, o, f), Load(Places(sizes, p, cap), o, f);
            w == 0 || (w == 1 && s >= p) || (w == 2 && (s >= 2 * p || s + p > cap))
  {
    if o != [] { TwoPlacesSuffice(sizes, o[..|o| - 1], f, p, cap); }
  }

  // A file that has no room left for p uses at least two places.
  lemma {:induction false} FullUsesTwoPlaces(sizes: seq<nat>, a: seq<nat>, f: nat, p: nat, cap: nat)
    requires |a| <= |sizes|
    ensures var s, w := Load(sizes, a, f), Load(Places(sizes, p, cap), a, f);
            (w == 0 ==> s == 0) && (w == 1 ==> s + p <= cap)
  {
    if a != [] { FullUsesTwoPlaces(sizes, a[..|a| - 1], f, p, cap); }
  }

  // If the smallest of the first k + 1 sets is more than a third of some assignment's biggest file,
  // then those sets fill every file of that assignment so tightly that set k still found room.
  lemma BigLastSetFits(sizes: seq<nat>, a: seq<nat>, o: seq<nat>, m: nat, k: nat, cap: nat)
    requires |a| == |o| == |sizes| && k < |sizes| && m >= 1
    requires Descending(sizes) && Greedy(sizes, a, m) && Assigns(o, m)
    requires forall f | 0 <= f < m :: Load(sizes, o, f) <= cap
    requires 3 * sizes[k] > cap
    ensures Load(sizes, a[..k], a[k]) + sizes[k] <= cap
  {
    var p, before, others := sizes[k], a[..k], o[..k + 1];
    var w := Places(sizes, p, cap);
    assert w[..k + 1][..k] == w[..k];
    assert GreedyAt(sizes, a, m, k);
    if Load(sizes, before, a[k]) + p > cap {
      forall f | 0 <= f < m ensures Load(w, others, f) <= 2 {
        LoadOfPrefix(sizes, o, k + 1, f);
        TwoPlacesSuffice(sizes, others, f, p, cap);
      }
      SumLoadsAtMost(w, others, m, 2);
      LoadsConserve(w, others, m);
      SetFits(sizes, o, m, k, cap);
      forall f | 0 <= f < m ensures Load(w, before, f) >= 2 {
        FullUsesTwoPlaces(sizes, before, f, p, cap);
      }
      SumLoadsAtLeast(w, before, m, 2);
      GreedyAssigns(sizes, a, m);
      LoadsConserve(w, before, m);
      assert false;
    }
  }

  lemma GreedyAssigns(sizes: seq<nat>, a: seq<nat>, m: nat)
    requires |a| <= |sizes| && Greedy(sizes, a, m)
    ensures Assigns(a, m)
  {
    forall i | 0 <= i < |a| ensures a[i] < m {
      assert GreedyAt(sizes, a, m, i);
    }
  }

  // The file that receives set k in an assignment within capacity shows that the set fits at all.
  lemma SetFits(sizes: seq<nat>, o: seq<nat>, m: nat, k: nat, cap: nat)
    requires |o| == |sizes| && k < |sizes| && Assigns(o, m)
    requires forall f | 0 <= f < m :: Load(sizes, o, f) <= cap
    ensures sizes[k] <= cap
  {
    LoadOfPrefix(sizes, o, k + 1, o[k]);
    assert o[..k + 1][..k] == o[..k];
  }

  lemma {:induction false} TotalOfPrefix(values: seq<nat>, k: nat)
    requires k <= |values|
    ensures Total(values[..k]) <= Total(values)
  {
    if k < |values| {
      TotalOfPrefix(values[..|values| - 1], k);
      assert values[..|values| - 1][..k] == values[..k];
    } else {
      assert values[..k] == values;
    }
  }

  // Graham's bound: no file exceeds (4/3 - 1/(3m)) times the biggest file of any other assignment.
  lemma GreedyIsWithinFourThirds(sizes: seq<nat>, a: seq<nat>, o: seq<nat>, m: nat, f: nat, cap: nat)
    requires |a| == |o| == |sizes| && m >= 1 && f < m
    requires Descending(sizes) && Greedy(sizes, a, m) && Assigns(o, m)
    requires forall g | 0 <= g < m :: Load(sizes, o, g) <= cap
    ensures 3 * m * Load(sizes, a, f) <= (4 * m - 1) * cap
  {
    if Load(sizes, a, f) > 0 {
      var k := LastSet(sizes, a, f);
      if 3 * sizes[k] > cap {
        BigLastSetFits(sizes, a, o, m, k, cap);
        OptimalBound(m, Load(sizes, a, f), cap);
      } else {
        SmallLastSet(sizes, a, o, m, k, cap);
        AverageBound(m, Load(sizes, a[..k], f), sizes[k], cap);
      }
    } else {
      OptimalBound(m, 0, cap);
    }
  }

  lemma OptimalBound(m: nat, load: nat, cap: nat)
    requires m >= 1 && load <= cap
    ensures 3 * m * load <= (4 * m - 1) * cap
  {
    assert 3 * m * load <= 3 * m * cap;
    assert (4 * m - 1) * cap == 3 * m * cap + (m - 1) * cap;
  }

  // The file that receives set k is no bigger than the average of what came before.
  lemma SmallLastSet(sizes: seq<nat>, a: seq<nat>, o: seq<nat>, m: nat, k: nat, cap: nat)
    requires |a| == |o| == |sizes| && k < |sizes| && m >= 1
    requires Greedy(sizes, a, m) && Assigns(o, m)
    requires forall g | 0 <= g < m :: Load(sizes, o, g) <= cap
    ensures m * Load(sizes, a[..k], a[k]) + sizes[k] <= m * cap
  {
    assert GreedyAt(sizes, a, m, k);
    GreedyAssigns(sizes, a, m);
    SumLoadsAtLeast(sizes, a[..k], m, Load(sizes, a[..k], a[k]));
    LoadsConserve(sizes, a[..k], m);
    SumLoadsAtMost(sizes, o, m, cap);
    LoadsConserve(sizes, o, m);
    assert sizes[..|o|] == sizes;
    TotalOfPrefix(sizes, k + 1);
    assert sizes[..k + 1][..k] == sizes[..k];
  }

  lemma AverageBound(m: nat, least: nat, p: nat, cap: nat)
    requires m >= 1 && m * least + p <= m * cap && 3 * p <= cap
    ensures 3 * m * (least + p) <= (4 * m - 1) * cap
  {
    assert 3 * m * (least + p) == 3 * (m * least + p) + 3 * p * (m - 1);
    assert 3 * p * (m - 1) <= cap * (m - 1);
  }
}
