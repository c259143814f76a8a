/** The hash table of call stacks run by a single thread (memprof.cpp, lines 128-187), over arrays updated in
    place: it behaves as a map from hashes to slots with one more slot for everything that came too late, except for stacks
    that hash to 0, the mark of an empty slot. */
module StackTable {
  import opened Counting
  import opened Modular
  import opened ProbeTable
  import opened ProbeBounds

  const WORD: nat := 0x1_0000_0000_0000_0000
  const FACTOR: nat := 0x4372_8978_9342_8797
  const HASHED_LENGTH: nat := 6

  // The hash of the first k addresses of a call stack, in 64-bit arithmetic.
  function HashOf(bt: seq<nat>, k: nat): (h: nat)
    requires k <= |bt|
    ensures h < WORD
  {
    if k == 0 then 7 else (HashOf(bt, k - 1) * FACTOR + bt[k - 1]) % WORD
  }

  method GetHash(bt: seq<nat>) returns (h: nat)
    ensures h == HashOf(bt, if |bt| < HASHED_LENGTH then |bt| else HASHED_LENGTH)
  {
    h := 7;
    var i := 0;
    while i < |bt| && i < HASHED_LENGTH
      invariant i <= |bt| && i <= HASHED_LENGTH && h == HashOf(bt, i)
    {
      h := (h * FACTOR + bt[i]) % WORD;
      i := i + 1;
    }
  }

  // The sum of bt[i] * FACTOR^(k - 1 - i) over the first k addresses
  function Weighted(bt: seq<nat>, k: nat, i: nat): nat
    requires i <= k <= |bt|
  {
    if i == 0 then 0 else Weighted(bt, k, i - 1) + bt[i - 1] * Power(FACTOR, k - i)
  }

  lemma {:induction false} WeightedUp(bt: seq<nat>, k: nat, i: nat)
    requires i <= k < |bt|
    ensures Weighted(bt, k + 1, i) == Weighted(bt, k, i) * FACTOR
  {
    if i > 0 {
      WeightedUp(bt, k, i - 1);
      var w, x, p := Weighted(bt, k, i - 1), bt[i - 1], Power(FACTOR, k - i);
      Distribute(w, x, p);
    }
  }

  lemma Distribute(w: nat, x: nat, p: nat)
    ensures (w + x * p) * FACTOR == w * FACTOR + x * (p * FACTOR)
  {
    assert (x * p) * FACTOR == x * (p * FACTOR);
  }

  // The hash is the polynomial 7 * FACTOR^k + bt[0] * FACTOR^(k-1) + ... + bt[k-1], modulo 2^64.
  lemma {:induction false} HashIsPolynomial(bt: seq<nat>, k: nat)
    requires k <= |bt|
    ensures HashOf(bt, k) == (7 * Power(FACTOR, k) + Weighted(bt, k, k)) % WORD
  {
    hide Power, Weighted;
    HashStarts(bt);
    if k > 0 {
      HashIsPolynomial(bt, k - 1);
      WeightedUp(bt, k - 1, k - 1);
      PolynomialStep(bt, k);
      var y := 7 * Power(FACTOR, k - 1) + Weighted(bt, k - 1, k - 1);
      ModMul(y, FACTOR, WORD);
      ModAdd(y * FACTOR, bt[k - 1], WORD);
      ModAdd((y % WORD) * FACTOR, bt[k - 1], WORD);
    }
  }

  lemma HashStarts(bt: seq<nat>)
    ensures Power(FACTOR, 0) == 1 && Weighted(bt, 0, 0) == 0 && HashOf(bt, 0) == 7
  {
  }

  lemma PolynomialStep(bt: seq<nat>, k: nat)
    requires 0 < k <= |bt| && Weighted(bt, k, k - 1) == Weighted(bt, k - 1, k - 1) * FACTOR
    ensures 7 * Power(FACTOR, k) + Weighted(bt, k, k) == (7 * Power(FACTOR, k - 1) + Weighted(bt, k - 1, k - 1)) * FACTOR + bt[k - 1]
  {
    assert Power(FACTOR, 0) == 1;
    assert 7 * (Power(FACTOR, k - 1) * FACTOR) == (7 * Power(FACTOR, k - 1)) * FACTOR;
  }

  const UNKNOWN: Hash := 0x31f8_0364_7e54_a8ce

  // The "unknown" call stack does not hash to the mark of an empty slot ...
  lemma UnknownHash(bt: seq<nat>)
    requires |bt| >= HASHED_LENGTH && bt[0] == 1 && forall i | 1 <= i < HASHED_LENGTH :: bt[i] == 0
    ensures HashOf(bt, HASHED_LENGTH) == UNKNOWN != 0
  {
    assert HashOf(bt, 1) == 0xd821_c24c_06d1_b522;
    assert HashOf(bt, 2) == 0x0443_f973_d4fa_c50e;
    assert HashOf(bt, 3) == 0xa309_fd00_b570_9d42;
    assert HashOf(bt, 4) == 0xb004_155e_d95e_8fee;
    assert HashOf(bt, 5) == 0xd448_cc29_da09_6762;
  }

  // ... but whatever the first five addresses are, one sixth address makes the hash zero.
  lemma ZeroHash(bt: seq<nat>)
    requires |bt| >= HASHED_LENGTH && bt[5] < WORD
    ensures HashOf(bt, HASHED_LENGTH) == 0 <==> bt[5] == (WORD - (HashOf(bt, 5) * FACTOR) % WORD) % WORD
  {
    Cancels(HashOf(bt, 5) * FACTOR, bt[5]);
  }

  // A stack of ordinary addresses that does
  lemma ZeroHashExists(bt: seq<nat>)
    requires |bt| >= HASHED_LENGTH && bt[0] == 0x5555_5556_4a10 && bt[1] == 0x5555_5557_1c3e && bt[2] == 0x5555_5558_02f4
    requires bt[3] == 0x5555_5559_b7a8 && bt[4] == 0x5559_4b16_b0de && bt[5] == 0x4447_127b_5375
    ensures HashOf(bt, HASHED_LENGTH) == 0
  {
    assert HashOf(bt, 1) == 0xd822_17a1_5c27_ff31;
    assert HashOf(bt, 2) == 0x4739_eeec_b623_7925;
    assert HashOf(bt, 3) == 0x13b8_010e_f3b0_fac7;
    assert HashOf(bt, 4) == 0x38a9_5792_534a_9409;
    assert HashOf(bt, 5) == 0x8dce_a808_1576_c12d;
  }

  lemma Cancels(x: nat, y: nat)
    requires y < WORD
    ensures (x + y) % WORD == 0 <==> y == (WORD - x % WORD) % WORD
  {
  }

  // ---------- what a call does ----------

  ghost predicate Has(slots: seq<nat>, hash: nat) {
    hash != 0 && hash in slots
  }

  // A hash in the table keeps its slot; any other is put into the first empty slot from its home on, which for the
  // hash 0 means that the slot stays empty.
  ghost predicate Placed(slots: seq<nat>, size: nat, hash: nat, slots': seq<nat>, size': nat, pos: nat) {
    && pos < |slots'| == |slots|
    && Run(slots, Home(hash, |slots|), Offset(Home(hash, |slots|), pos, |slots|))
    && slots'[pos] == hash
    && (if Has(slots, hash) then slots' == slots && size' == size
        else slots[pos] == 0 && slots' == slots[pos := hash] && size' == size + 1)
  }

  // A new hash gets a slot of its own up to half full; from then on it gets the slot of the "unknown" stack.
  ghost predicate Answers(slots: seq<nat>, size: nat, hash: nat, slots': seq<nat>, size': nat, pos: nat) {
    var late := !Has(slots, hash) && size > |slots| / 2;
    Placed(slots, size, if late then UNKNOWN else hash, slots', size', pos)
  }

  // Every taken slot is counted, and so is every call for a stack that hashes to 0 up to half full.
  ghost predicate TableOk(slots: seq<nat>, size: nat) {
    && FewThreads(|slots|, 1)
    && Unique(slots) && Reachable(slots)
    && Count(slots, Taken) <= size
    && size <= |slots| / 2 + 1 + if UNKNOWN in slots then 1 else 0
  }

  // The counter stays exact unless the stack hashes to 0 and the table is up to half full.
  lemma ZeroHashUnbalances(slots: seq<nat>, size: nat, hash: nat, slots': seq<nat>, size': nat, pos: nat)
    requires Answers(slots, size, hash, slots', size', pos) && size == Count(slots, Taken)
    ensures size' == Count(slots', Taken) <==> hash != 0 || size > |slots| / 2
  {
    hide Count, Run;
    CountUpdate(slots, pos, slots'[pos], Taken);
  }

  class Table {
    const slots: array<nat>
    var size: nat

    ghost predicate Valid()
      reads this, slots
    {
      TableOk(slots[..], size)
    }

    constructor (n: nat)
      requires FewThreads(n, 1)
      ensures Valid() && fresh(slots) && slots.Length == n && size == 0 && forall p | 0 <= p < n :: slots[p] == 0
    {
      slots := new nat[n](_ => 0);
      size := 0;
      new;
      assert forall p | 0 <= p < n :: slots[..][p] == slots[p];
      CountNone(slots[..], Taken);
    }

    // get_ht_pos
    method GetPos(hash: nat, force: bool) returns (pos: nat)
      requires Valid() && (force ==> hash == UNKNOWN)
      modifies this, slots
      ensures Valid()
      ensures !force ==> Answers(old(slots[..]), old(size), hash, slots[..], size, pos)
      ensures force ==> Placed(old(slots[..]), old(size), hash, slots[..], size, pos)
      decreases !force
    {
      hide TableOk, Passed, Count, Run, Offset;
      ghost var was := slots[..];
      var n := slots.Length;
      TableFacts(was, size);
      pos := Home(hash, n);
      var wasOverflow := false;
      ghost var th := Begin(hash, hash, force, n);
      StartPasses(was, th);
      while true
        invariant slots[..] == was && Valid() && size == old(size)
        invariant th.pos == pos < n && th.wasOverflow == wasOverflow && th.hash == hash && th.pc.Load?
        invariant Passed(was, th)
        decreases n - th.steps
      {
        StepsAreFew(was, size, th);
        if slots[pos] == 0 {
          EmptyMeansAbsent(was, size, th);
          if size > n / 2 {
            if force {
              assert size * 10 < n * 7;
            } else {
              pos := GetPos(UNKNOWN, true);
              return;
            }
          }
          TakeIsOk(was, size, th, force);
          PassedIsRun(was, size, th);
          slots[pos] := hash;
          size := size + 1;
          assert slots[..] == was[pos := hash];
          return;
        } else if slots[pos] == hash {
          PassedIsRun(was, size, th);
          assert was[pos] == hash;
          return;
        } else {
          NextPasses(was, size, th);
          th := Advance(th, n);
          pos := pos + 1;
          if pos == n {
            pos := 0;
            if wasOverflow {
              assert false;
            }
            wasOverflow := true;
          }
        }
      }
    }
  }

  lemma TableFacts(slots: seq<nat>, size: nat)
    requires TableOk(slots, size)
    ensures |slots| > 10 && size * 10 < |slots| * 7 && size < |slots| && Unique(slots)
  {
  }

  lemma StartPasses(slots: seq<nat>, th: Thread)
    requires |slots| > 0 && th == Begin(th.wanted, th.hash, th.force, |slots|)
    ensures Passed(slots, th)
  {
  }

  lemma StepsAreFew(slots: seq<nat>, size: nat, th: Thread)
    requires TableOk(slots, size) && Passed(slots, th)
    ensures th.steps < |slots|
  {
    if th.steps >= |slots| { CountAll(slots, Taken); }
  }

  lemma EmptyMeansAbsent(slots: seq<nat>, size: nat, th: Thread)
    requires TableOk(slots, size) && Passed(slots, th) && slots[th.pos] == 0
    ensures !Has(slots, th.hash)
  {
    TakenSlotIsNew(slots, th);
  }

  lemma PassedIsRun(slots: seq<nat>, size: nat, th: Thread)
    requires TableOk(slots, size) && Passed(slots, th)
    ensures var home := Home(th.hash, |slots|); Run(slots, home, Offset(home, th.pos, |slots|))
  {
    StepsAreFew(slots, size, th);
  }

  lemma TakeIsOk(slots: seq<nat>, size: nat, th: Thread, force: bool)
    requires TableOk(slots, size) && Passed(slots, th) && slots[th.pos] == 0
    requires th.pos < |slots| && if force then th.hash == UNKNOWN else size <= |slots| / 2
    ensures TableOk(slots[th.pos := th.hash], size + 1)
  {
    hide Unique, Reachable, Passed, Count;
    EmptyMeansAbsent(slots, size, th);
    TakeKeepsTable(slots, th);
    CountUpdate(slots, th.pos, th.hash, Taken);
    var later := slots[th.pos := th.hash];
    assert later[th.pos] == th.hash;
    if UNKNOWN in slots {
      var p :| 0 <= p < |slots| && slots[p] == UNKNOWN;
      assert later[p] == UNKNOWN;
    }
  }

  lemma NextPasses(slots: seq<nat>, size: nat, th: Thread)
    requires TableOk(slots, size) && Passed(slots, th) && th.pc.Load? && slots[th.pos] != 0 && slots[th.pos] != th.hash
    ensures var next := Advance(th, |slots|);
            && next.pc.Load? && Passed(slots, next) && next.hash == th.hash && next.steps == th.steps + 1
            && (th.pos + 1 == |slots| ==> !th.wasOverflow)
  {
    hide TableOk;
    StepsAreFew(slots, size, th);
    var n, home := |slots|, Home(th.hash, |slots|);
    var next := Advance(th, n);
    forall p | 0 <= p < n && Offset(home, p, n) < next.steps ensures slots[p] != 0 && slots[p] != th.hash {
      assert Offset(home, p, n) == th.steps ==> p == th.pos;
    }
  }

  // ---------- over many calls ----------

  // The slot of every hash that has one
  ghost function Directory(slots: seq<nat>): map<nat, nat>
    requires Unique(slots)
  {
    map p | 0 <= p < |slots| && slots[p] != 0 :: slots[p] := p
  }

  // Where a stack that does not hash to 0 is found: in its own slot, or in that of the "unknown" stack.
  ghost predicate FoundAt(directory: map<nat, nat>, hash: Hash, pos: nat) {
    if hash in directory then directory[hash] == pos else UNKNOWN in directory && directory[UNKNOWN] == pos
  }

  lemma DirectoryIs(slots: seq<nat>)
    requires Unique(slots)
    ensures forall h :: h in Directory(slots) <==> Has(slots, h)
    ensures forall h | h in Directory(slots) :: Directory(slots)[h] < |slots| && slots[Directory(slots)[h]] == h
    ensures forall p | 0 <= p < |slots| && slots[p] != 0 :: slots[p] in Directory(slots) && Directory(slots)[slots[p]] == p
  {
  }

  lemma AddedToDirectory(slots: seq<nat>, key: Hash, pos: nat)
    requires pos < |slots| && slots[pos] == 0 && Unique(slots) && Unique(slots[pos := key])
    ensures Directory(slots[pos := key]) == Directory(slots)[key := pos]
  {
    hide Directory, Unique;
    var slots' := slots[pos := key];
    DirectoryIs(slots);
    DirectoryIs(slots');
    var d, d' := Directory(slots), Directory(slots');
    assert slots'[pos] == key;
    forall h | h in d ensures h in d' && (h != key ==> d'[h] == d[h]) {
      assert slots'[d[h]] == slots[d[h]] == h;
    }
    forall h | h in d' && h != key ensures h in d {
      assert slots[d'[h]] == slots'[d'[h]] == h;
    }
  }

  lemma PlacedOnMap(slots: seq<nat>, size: nat, key: nat, slots': seq<nat>, size': nat, pos: nat)
    requires Unique(slots) && Unique(slots') && Placed(slots, size, key, slots', size', pos)
    ensures var d, d' := Directory(slots), Directory(slots');
            && (key in d <==> Has(slots, key))
            && (if key in d then pos == d[key] && d' == d && size' == size
                else pos !in d.Values && size' == size + 1 && d' == if key == 0 then d else d[key := pos])
  {
    hide Run, Directory, Unique;
    DirectoryIs(slots);
    if key == 0 {
      assert slots[pos := 0] == slots;
    } else if !Has(slots, key) {
      AddedToDirectory(slots, key, pos);
    }
  }

  // In terms of the directory: hashes are added up to half full, then the "unknown" stack once.
  lemma AnswersOnMap(slots: seq<nat>, size: nat, hash: nat, slots': seq<nat>, size': nat, pos: nat)
    requires TableOk(slots, size) && TableOk(slots', size') && Answers(slots, size, hash, slots', size', pos)
    ensures var d, d' := Directory(slots), Directory(slots');
            if hash in d then pos == d[hash] && d' == d && size' == size
            else if size > |slots| / 2 then
              && d' == d[UNKNOWN := pos] && size' == size + (if UNKNOWN in d then 0 else 1)
              && (UNKNOWN in d ==> d[UNKNOWN] == pos)
            else pos !in d.Values && size' == size + 1 && d' == if hash == 0 then d else d[hash := pos]
  {
    hide Count, Run, Reachable, Directory, Unique;
    var d, late := Directory(slots), !Has(slots, hash) && size > |slots| / 2;
    DirectoryIs(slots);
    PlacedOnMap(slots, size, if late then UNKNOWN else hash, slots', size', pos);
    if UNKNOWN in d { assert d[UNKNOWN := d[UNKNOWN]] == d; }
  }

  // What a run of calls leaves behind, without slots: the hashes known and the count.
  datatype Census = Census(known: set<nat>, size: nat)

  ghost function Counted(c: Census, hash: nat, n: nat): Census {
    if hash in c.known then c
    else if c.size <= n / 2 then Census(if hash == 0 then c.known else c.known + {hash}, c.size + 1)
    else Census(c.known + {UNKNOWN}, c.size + if UNKNOWN in c.known then 0 else 1)
  }

  ghost function CensusOf(hashes: seq<nat>, n: nat): Census {
    if hashes == [] then Census({}, 0) else Counted(CensusOf(hashes[..|hashes| - 1], n), hashes[|hashes| - 1], n)
  }

  // Calls answered so far are answered the same by the directory from then on.
  ghost predicate AllFound(slots: seq<nat>, size: nat, hashes: seq<nat>, ps: seq<nat>)
    requires Unique(slots)
  {
    && |ps| == |hashes|
    && forall i | 0 <= i < |hashes| && hashes[i] != 0 ::
         FoundAt(Directory(slots), hashes[i], ps[i]) && (hashes[i] in Directory(slots) || size > |slots| / 2)
  }

  lemma CallIsFound(slots: seq<nat>, size: nat, hashes: seq<nat>, ps: seq<nat>, hash: nat, slots': seq<nat>, size': nat, pos: nat)
    requires TableOk(slots, size) && TableOk(slots', size') && Answers(slots, size, hash, slots', size', pos)
    requires AllFound(slots, size, hashes, ps)
    ensures AllFound(slots', size', hashes + [hash], ps + [pos])
    ensures Census(Directory(slots').Keys, size') == Counted(Census(Directory(slots).Keys, size), hash, |slots|)
  {
    hide TableOk, Answers, Directory;
    AnswersOnMap(slots, size, hash, slots', size', pos);
    TableFacts(slots, size);
    TableFacts(slots', size');
    AnswerInRange(slots, size, hash, slots', size', pos);
    assert 0 !in Directory(slots) by { NoZeroEntry(slots); }
  }

  lemma NoZeroEntry(slots: seq<nat>)
    requires Unique(slots)
    ensures 0 !in Directory(slots)
  {
  }

  lemma AnswerInRange(slots: seq<nat>, size: nat, hash: nat, slots': seq<nat>, size': nat, pos: nat)
    requires Answers(slots, size, hash, slots', size', pos)
    ensures pos < |slots'| == |slots|
  {
  }

  // A run of calls on an empty table. All answers for stacks that do not hash to 0 can be read off the final
  // directory, so a stack gets the slot of its first call for good; which hashes have a slot of their own depends
  // on the order of the calls alone.
  method AllPos(n: nat, hashes: seq<nat>) returns (table: Table, ps: seq<nat>)
    requires FewThreads(n, 1)
    ensures fresh(table) && fresh(table.slots) && table.Valid() && table.slots.Length == n
    ensures Unique(table.slots[..]) && AllFound(table.slots[..], table.size, hashes, ps)
    ensures Census(Directory(table.slots[..]).Keys, table.size) == CensusOf(hashes, n)
    ensures forall i, j | 0 <= i < j < |hashes| && hashes[i] == hashes[j] != 0 :: ps[i] == ps[j]
  {
    hide TableOk, Answers, Directory;
    table := new Table(n);
    ps := [];
    TableFacts(table.slots[..], table.size);
    assert Directory(table.slots[..]) == map[] by { NothingYet(table.slots[..]); }
    for k := 0 to |hashes|
      invariant fresh(table) && fresh(table.slots) && table.Valid() && table.slots.Length == n
      invariant Unique(table.slots[..]) && AllFound(table.slots[..], table.size, hashes[..k], ps)
      invariant Census(Directory(table.slots[..]).Keys, table.size) == CensusOf(hashes[..k], n)
    {
      ghost var slots, size := table.slots[..], table.size;
      var pos := table.GetPos(hashes[k], false);
      CallIsFound(slots, size, hashes[..k], ps, hashes[k], table.slots[..], table.size, pos);
      TableFacts(table.slots[..], table.size);
      ps := ps + [pos];
      assert hashes[..k + 1] == hashes[..k] + [hashes[k]] && hashes[..k + 1][..k] == hashes[..k];
    }
    assert hashes[..|hashes|] == hashes;
  }

  lemma NothingYet(slots: seq<nat>)
    requires forall p | 0 <= p < |slots| :: slots[p] == 0
    ensures Directory(slots) == map[]
  {
  }

  lemma FirstEmpty(slots: seq<nat>, size: nat, hash: nat, slots': seq<nat>, size': nat, pos: nat, e: nat)
    requires Answers(slots, size, hash, slots', size', pos) && !Has(slots, hash) && size <= |slots| / 2
    requires Home(hash, |slots|) == 0 && e < |slots| && slots[e] == 0 && forall q | 0 <= q < e :: slots[q] != 0
    ensures pos == e && slots' == slots[e := hash] && size' == size + 1
  {
    AnswerInRange(slots, size, hash, slots', size', pos);
    assert Offset(0, e, |slots|) == e && Offset(0, pos, |slots|) == pos;
  }

  // The first call on an empty table is answered with the home of its hash.
  method FirstPos(n: nat, hash: nat) returns (pos: nat)
    requires FewThreads(n, 1)
    ensures pos == hash % n
  {
    hide TableOk;
    var table := new Table(n);
    ghost var empty := table.slots[..];
    assert forall p | 0 <= p < n :: empty[p] == 0;
    pos := table.GetPos(hash, false);
    assert Offset(Home(hash, n), Home(hash, n), n) == 0;
  }

  // A stack that hashes to 0 has no such slot, whatever the size of the table: the first empty slot it is given is
  // given to the next stack too, and then it is given another.
  method ZeroHashMoves(n: nat) returns (first: nat, other: nat, second: nat)
    requires FewThreads(n, 1)
    ensures first == other == 0 && second == 1
  {
    hide TableOk, Answers;
    var table := new Table(n);
    ghost var empty := table.slots[..];
    assert (forall p | 0 <= p < n :: empty[p] == 0) && empty[0 := 0] == empty;
    first := table.GetPos(0, false);
    FirstEmpty(empty, 0, 0, table.slots[..], table.size, first, 0);
    other := table.GetPos(n, false);
    FirstEmpty(empty, 1, n, table.slots[..], table.size, other, 0);
    ghost var one := table.slots[..];
    second := table.GetPos(0, false);
    FirstEmpty(one, 2, 0, table.slots[..], table.size, second, 1);
  }
}
