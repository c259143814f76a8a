/** For every number of files the bound on the largest-first assignment (SplitSource.php, lines 194-202) is reached:
    two sets of each size from 2m - 1 down to m + 1 and three of size m make a file of size 4m - 1, where all m files
    could have had size 3m. */
module GreedyTightness {
  import opened GreedyAssignment

  function Size(m: nat, i: nat): nat
    requires i <= 2 * m
  {
    if i < 2 * m then 2 * m - 1 - i / 2 else m
  }

  ghost function Sizes(m: nat): seq<nat> {
    seq(2 * m + 1, i requires 0 <= i <= 2 * m => Size(m, i))
  }

  // The file that gets its second set as the j-th one, and when file f gets its second set: the last files, which
  // are the smallest, come first, and of two equal ones the first.
  function Second(m: nat, j: nat): nat
    requires j < m
  {
    if (m - j) % 2 == 0 then m - 2 - j else if j == 0 then m - 1 else m - j
  }

  function Turn(m: nat, f: nat): nat
    requires f < m
  {
    if f % 2 == 1 then m - f else if f == m - 1 then 0 else m - 2 - f
  }

  lemma TurnOfSecond(m: nat, j: nat, f: nat)
    requires j < m && f < m
    ensures Second(m, j) < m && (Turn(m, f) == j <==> f == Second(m, j))
  {
  }

  ghost function Chosen(m: nat, i: nat): nat
    requires i <= 2 * m
  {
    if i < m then i else if i < 2 * m then Second(m, i - m) else 0
  }

  ghost function Largest(m: nat): seq<nat> {
    seq(2 * m + 1, i requires 0 <= i <= 2 * m => Chosen(m, i))
  }

  // The size of file f after k sets
  ghost function SizeAfter(m: nat, k: nat, f: nat): nat
    requires f < m && k <= 2 * m + 1
  {
    if k <= m then if f < k then Size(m, f) else 0
    else if k <= 2 * m then if Turn(m, f) < k - m then 3 * m - 1 else Size(m, f)
    else if f == 0 then 4 * m - 1 else 3 * m - 1
  }

  lemma SizeSteps(m: nat, k: nat, f: nat)
    requires f < m && k <= 2 * m
    ensures SizeAfter(m, k + 1, f) == SizeAfter(m, k, f) + if Chosen(m, k) == f then Size(m, k) else 0
  {
    if m <= k < 2 * m { TurnOfSecond(m, k - m, f); }
  }

  lemma LoadStep(values: seq<nat>, a: seq<nat>, k: nat, f: nat)
    requires k < |a| <= |values|
    ensures Load(values, a[..k + 1], f) == Load(values, a[..k], f) + if a[k] == f then values[k] else 0
    ensures Load(values, a[..0], f) == 0
  {
    assert a[..k + 1][..k] == a[..k];
  }

  lemma {:induction false} LargestLoads(m: nat, k: nat, f: nat)
    requires f < m && k <= 2 * m + 1
    ensures Load(Sizes(m), Largest(m)[..k], f) == SizeAfter(m, k, f)
  {
    hide Load, SizeAfter, Chosen, Size;
    LoadStep(Sizes(m), Largest(m), if k == 0 then 0 else k - 1, f);
    if k == 0 {
      NothingYet(m, f);
    } else {
      LargestLoads(m, k - 1, f);
      SizeSteps(m, k - 1, f);
    }
  }

  lemma NothingYet(m: nat, f: nat)
    requires f < m
    ensures SizeAfter(m, 0, f) == EvenAfter(m, 0, f) == 0
  {
  }

  // The file chosen for set k is the first of the smallest.
  lemma ChosenIsSmallest(m: nat, k: nat, f: nat)
    requires f < m && k <= 2 * m
    ensures Chosen(m, k) < m && SizeAfter(m, k, Chosen(m, k)) <= SizeAfter(m, k, f)
    ensures f < Chosen(m, k) ==> SizeAfter(m, k, Chosen(m, k)) < SizeAfter(m, k, f)
  {
    if m <= k < 2 * m {
      TurnOfSecond(m, k - m, Second(m, k - m));
      TurnOfSecond(m, k - m, f);
    }
  }

  lemma LargestIsGreedy(m: nat)
    requires m >= 1
    ensures Greedy(Sizes(m), Largest(m), m)
  {
    hide Load, Sizes, SizeAfter, Chosen;
    var sizes, a := Sizes(m), Largest(m);
    assert |sizes| == 2 * m + 1 by { SizesAre(m); }
    forall k | 0 <= k < |a| ensures GreedyAt(sizes, a, m, k) {
      forall f | 0 <= f < m
        ensures a[k] < m && Load(sizes, a[..k], a[k]) <= Load(sizes, a[..k], f)
        ensures f < a[k] ==> Load(sizes, a[..k], a[k]) < Load(sizes, a[..k], f)
      {
        ChosenIsSmallest(m, k, f);
        LargestLoads(m, k, f);
        LargestLoads(m, k, a[k]);
      }
      ChosenIsSmallest(m, k, 0);
    }
  }

  lemma SizesAre(m: nat)
    ensures |Sizes(m)| == 2 * m + 1 && Descending(Sizes(m))
  {
  }

  // Big sets with small ones, and the three of size m together
  ghost function Even(m: nat): seq<nat>
    requires m >= 1
  {
    seq(2 * m + 1, i requires 0 <= i => EvenOf(m, i))
  }

  ghost function EvenAfter(m: nat, k: nat, f: nat): nat
    requires f < m && k <= 2 * m + 1
  {
    if f < m - 1 then (if f < k then Size(m, f) else 0) + (if 2 * m - 3 - f < k then Size(m, 2 * m - 3 - f) else 0)
    else if k <= 2 * m - 2 then 0 else if k == 2 * m - 1 then m else if k == 2 * m then 2 * m else 3 * m
  }

  ghost function EvenOf(m: nat, i: nat): nat
    requires m >= 1
  {
    if i < m - 1 then i else if i < 2 * m - 2 then 2 * m - 3 - i else m - 1
  }

  lemma EvenSteps(m: nat, k: nat, f: nat)
    requires f < m && k <= 2 * m
    ensures EvenAfter(m, k + 1, f) == EvenAfter(m, k, f) + if EvenOf(m, k) == f then Size(m, k) else 0
  {
  }

  lemma {:induction false} EvenLoads(m: nat, k: nat, f: nat)
    requires f < m && k <= 2 * m + 1
    ensures Load(Sizes(m), Even(m)[..k], f) == EvenAfter(m, k, f)
  {
    hide Load, EvenAfter, EvenOf, Size;
    LoadStep(Sizes(m), Even(m), if k == 0 then 0 else k - 1, f);
    if k == 0 {
      NothingYet(m, f);
    } else {
      EvenLoads(m, k - 1, f);
      EvenSteps(m, k - 1, f);
    }
  }

  lemma BoundIsReached(m: nat)
    requires m >= 1
    ensures |Sizes(m)| == |Largest(m)| == |Even(m)| && Descending(Sizes(m))
    ensures Greedy(Sizes(m), Largest(m), m) && Assigns(Even(m), m)
    ensures forall f | 0 <= f < m :: Load(Sizes(m), Even(m), f) == 3 * m
    ensures 3 * m * Load(Sizes(m), Largest(m), 0) == (4 * m - 1) * (3 * m)
  {
    hide Load, Sizes;
    SizesAre(m);
    LargestIsGreedy(m);
    LargestLoads(m, 2 * m + 1, 0);
    assert Largest(m)[..2 * m + 1] == Largest(m) && Even(m)[..2 * m + 1] == Even(m);
    forall f | 0 <= f < m ensures Load(Sizes(m), Even(m), f) == 3 * m {
      EvenLoads(m, 2 * m + 1, f);
    }
  }
}
