/** Allocation accounting (memprof.cpp, lines 120-126, 189-277 and 314-318): every block remembers its size
    and the slot of the call stack it was allocated from, and every slot counts its live bytes. */
module AllocationAccounting {
  import opened Basics
  import opened Counting
  import opened Modular
  import opened ProbeTable
  import opened ProbeBounds
  import opened StackTable

  // std::min(static_cast<std::int32_t>(size), info->size)
  function CopiedBytes(old': nat, new': nat): (copied: int)
    ensures copied <= old' && copied <= new'
  {
    Int32IsLess(old');
    Int32IsLess(new');
    if Int32(old') < Int32(new') then Int32(old') else Int32(new')
  }

  lemma Int32IsLess(x: nat)
    ensures Int32(x) <= x && (Int32(x) == x <==> x < 0x8000_0000)
  {
    var k := Int32Shortfall(x);
  }

  // realloc keeps all bytes that fit exactly when the smaller size is below 2^31 and the bigger one, cut to 32 bits,
  // is not less.
  lemma ReallocKeeps(small: nat, big: nat)
    requires small <= big
    ensures CopiedBytes(small, big) == CopiedBytes(big, small)
    ensures CopiedBytes(small, big) == small <==> small < 0x8000_0000 && Int32(big) >= small
  {
    hide Int32;
    Int32IsLess(small);
    Int32IsLess(big);
  }

  // A live block: its bytes and the header in front of them.
  datatype Block = Block(data: seq<Byte>, size: int, htPos: nat)

  predicate Listed(live: seq<nat>, blocks: map<nat, Block>) {
    forall i | 0 <= i < |live| :: live[i] in blocks
  }

  // The sizes recorded for the blocks of one slot, and for all blocks.
  ghost function Recorded(live: seq<nat>, blocks: map<nat, Block>, p: nat): int
    requires Listed(live, blocks)
  {
    if live == [] then 0
    else
      var b := blocks[live[|live| - 1]];
      Recorded(live[..|live| - 1], blocks, p) + if b.htPos == p then b.size else 0
  }

  ghost function RecordedInAll(live: seq<nat>, blocks: map<nat, Block>): int
    requires Listed(live, blocks)
  {
    if live == [] then 0 else RecordedInAll(live[..|live| - 1], blocks) + blocks[live[|live| - 1]].size
  }

  ghost function LiveBytes(live: seq<nat>, blocks: map<nat, Block>): nat
    requires Listed(live, blocks)
  {
    if live == [] then 0 else LiveBytes(live[..|live| - 1], blocks) + |blocks[live[|live| - 1]].data|
  }

  ghost function RecordedUpTo(live: seq<nat>, blocks: map<nat, Block>, n: nat): int
    requires Listed(live, blocks)
  {
    if n == 0 then 0 else RecordedUpTo(live, blocks, n - 1) + Recorded(live, blocks, n - 1)
  }

  // ---------- the books ----------

  ghost predicate BlocksOk(live: seq<nat>, blocks: map<nat, Block>, n: nat) {
    && NoDuplicates(live) && Listed(live, blocks) && (forall ptr :: ptr in blocks ==> ptr in live)
    && 0 !in blocks
    && (forall ptr | ptr in blocks :: blocks[ptr].htPos < n && blocks[ptr].size == Int32(|blocks[ptr].data|))
  }

  ghost predicate Balanced(live: seq<nat>, blocks: map<nat, Block>, sizes: seq<nat>)
    requires Listed(live, blocks)
  {
    forall p | 0 <= p < |sizes| :: sizes[p] == Recorded(live, blocks, p) % WORD
  }

  lemma {:induction false} RecordedElsewhere(live: seq<nat>, blocks: map<nat, Block>, ptr: nat, b: Block, p: nat)
    requires Listed(live, blocks) && ptr !in live
    ensures Listed(live, blocks[ptr := b]) && Recorded(live, blocks[ptr := b], p) == Recorded(live, blocks, p)
  {
    if live != [] {
      assert live[|live| - 1] in live;
      RecordedElsewhere(live[..|live| - 1], blocks, ptr, b, p);
    }
  }

  lemma AddBlock(live: seq<nat>, blocks: map<nat, Block>, ptr: nat, b: Block, p: nat)
    requires Listed(live, blocks) && ptr !in live
    ensures Listed(live + [ptr], blocks[ptr := b])
    ensures Recorded(live + [ptr], blocks[ptr := b], p) == Recorded(live, blocks, p) + if b.htPos == p then b.size else 0
  {
    RecordedElsewhere(live, blocks, ptr, b, p);
    assert (live + [ptr])[..|live|] == live;
  }

  function Without(live: seq<nat>, i: nat): seq<nat>
    requires i < |live|
  {
    live[..i] + live[i + 1..]
  }

  lemma RecordedLast(live: seq<nat>, blocks: map<nat, Block>, ptr: nat, p: nat)
    requires Listed(live, blocks) && ptr in blocks
    ensures Listed(live + [ptr], blocks)
    ensures Recorded(live + [ptr], blocks, p) == Recorded(live, blocks, p) + if blocks[ptr].htPos == p then blocks[ptr].size else 0
  {
    assert (live + [ptr])[..|live|] == live;
  }

  lemma WithoutLast(live: seq<nat>, i: nat)
    requires i < |live|
    ensures var n := |live| - 1;
            Without(live, i) == if i == n then live[..n] else Without(live[..n], i) + [live[n]]
    ensures live == live[..|live| - 1] + [live[|live| - 1]]
  {
  }

  lemma {:induction false} RemoveBlock(live: seq<nat>, blocks: map<nat, Block>, i: nat, p: nat)
    requires Listed(live, blocks) && NoDuplicates(live) && i < |live|
    ensures Listed(Without(live, i), blocks - {live[i]})
    ensures var b := blocks[live[i]];
            Recorded(Without(live, i), blocks - {live[i]}, p) == Recorded(live, blocks, p) - if b.htPos == p then b.size else 0
  {
    hide Recorded, Without;
    var n, ptr := |live| - 1, live[i];
    var front := live[..n];
    WithoutLast(live, i);
    RecordedLast(front, blocks, live[n], p);
    if i == n {
      RecordedWithout(front, blocks, ptr, p);
    } else {
      RemoveBlock(front, blocks, i, p);
      RecordedLast(Without(front, i), blocks - {ptr}, live[n], p);
    }
  }

  lemma {:induction false} RecordedWithout(live: seq<nat>, blocks: map<nat, Block>, ptr: nat, p: nat)
    requires Listed(live, blocks) && forall j | 0 <= j < |live| :: live[j] != ptr
    ensures Listed(live, blocks - {ptr}) && Recorded(live, blocks - {ptr}, p) == Recorded(live, blocks, p)
  {
    if live != [] {
      RecordedWithout(live[..|live| - 1], blocks, ptr, p);
    }
  }

  // ---------- totals ----------

  lemma {:induction false} UpToStep(live: seq<nat>, blocks: map<nat, Block>, n: nat)
    requires Listed(live, blocks) && live != []
    ensures var b := blocks[live[|live| - 1]];
            RecordedUpTo(live, blocks, n) ==
            RecordedUpTo(live[..|live| - 1], blocks, n) + if b.htPos < n then b.size else 0
  {
    if n > 0 { UpToStep(live, blocks, n - 1); }
  }

  lemma {:induction false} UpToEmpty(blocks: map<nat, Block>, n: nat)
    ensures RecordedUpTo([], blocks, n) == 0
  {
    if n > 0 { UpToEmpty(blocks, n - 1); }
  }

  // The slots together record every block once.
  lemma {:induction false} SlotsRecordAll(live: seq<nat>, blocks: map<nat, Block>, n: nat)
    requires Listed(live, blocks) && forall i | 0 <= i < |live| :: blocks[live[i]].htPos < n
    ensures RecordedUpTo(live, blocks, n) == RecordedInAll(live, blocks)
  {
    if live == [] {
      UpToEmpty(blocks, n);
    } else {
      SlotsRecordAll(live[..|live| - 1], blocks, n);
      UpToStep(live, blocks, n);
    }
  }

  ghost predicate SmallBlocks(live: seq<nat>, blocks: map<nat, Block>)
    requires Listed(live, blocks)
  {
    forall i | 0 <= i < |live| :: |blocks[live[i]].data| < 0x8000_0000
  }

  // Blocks of 2^31 bytes and more are recorded 2^32 bytes too small, some of them several times over.
  lemma {:induction false} RecordedShortfall(live: seq<nat>, blocks: map<nat, Block>) returns (k: nat)
    requires Listed(live, blocks) && forall i | 0 <= i < |live| :: blocks[live[i]].size == Int32(|blocks[live[i]].data|)
    ensures LiveBytes(live, blocks) == RecordedInAll(live, blocks) + 0x1_0000_0000 * k
    ensures 0x8000_0000 * k <= LiveBytes(live, blocks)
    ensures k == 0 <==> SmallBlocks(live, blocks)
  {
    if live == [] {
      k := 0;
    } else {
      var n := |live| - 1;
      var before := RecordedShortfall(live[..n], blocks);
      var x := |blocks[live[n]].data|;
      var more := Int32Shortfall(x);
      k := before + more;
      assert SmallBlocks(live, blocks) <==> SmallBlocks(live[..n], blocks) && x < 0x8000_0000 by {
        if SmallBlocks(live, blocks) {
          assert forall i | 0 <= i < n :: live[..n][i] == live[i];
          assert |blocks[live[n]].data| < 0x8000_0000;
        }
        if SmallBlocks(live[..n], blocks) {
          assert forall i | 0 <= i < n :: live[..n][i] == live[i];
        }
      }
    }
  }

  // get_used_memory_size is the number of live bytes exactly when no live block has 2^31 bytes or more.
  lemma UsedIsLiveBytes(live: seq<nat>, blocks: map<nat, Block>, n: nat)
    requires BlocksOk(live, blocks, n) && LiveBytes(live, blocks) < 0x8000_0000_0000_0000
    ensures RecordedInAll(live, blocks) % WORD == LiveBytes(live, blocks) <==> SmallBlocks(live, blocks)
  {
    var k := RecordedShortfall(live, blocks);
    if k > 0 {
      assert 0 < 0x1_0000_0000 * k < WORD;
    }
  }

  // The live blocks allocated from one slot
  ghost function From(live: seq<nat>, blocks: map<nat, Block>, p: nat): seq<nat>
    requires Listed(live, blocks)
  {
    if live == [] then []
    else
      var n := |live| - 1;
      From(live[..n], blocks, p) + if blocks[live[n]].htPos == p then [live[n]] else []
  }

  lemma {:induction false} FromLists(live: seq<nat>, blocks: map<nat, Block>, p: nat)
    requires Listed(live, blocks)
    ensures forall q :: q in From(live, blocks, p) <==> q in live && blocks[q].htPos == p
    ensures Listed(From(live, blocks, p), blocks)
  {
    if live != [] {
      var n := |live| - 1;
      FromLists(live[..n], blocks, p);
      assert live == live[..n] + [live[n]];
      var from := From(live, blocks, p);
      assert forall i | 0 <= i < |from| :: from[i] in from;
    }
  }

  lemma AddedUp(live: seq<nat>, blocks: map<nat, Block>, ptr: nat)
    requires Listed(live, blocks) && ptr in blocks
    ensures Listed(live + [ptr], blocks)
    ensures RecordedInAll(live + [ptr], blocks) == RecordedInAll(live, blocks) + blocks[ptr].size
    ensures LiveBytes(live + [ptr], blocks) == LiveBytes(live, blocks) + |blocks[ptr].data|
  {
    assert (live + [ptr])[..|live|] == live;
  }

  lemma {:induction false} FromRecords(live: seq<nat>, blocks: map<nat, Block>, p: nat)
    requires Listed(live, blocks)
    ensures Listed(From(live, blocks, p), blocks)
    ensures RecordedInAll(From(live, blocks, p), blocks) == Recorded(live, blocks, p)
    ensures LiveBytes(From(live, blocks, p), blocks) <= LiveBytes(live, blocks)
  {
    hide RecordedInAll, LiveBytes;
    FromLists(live, blocks, p);
    if live == [] {
      NothingLive(blocks);
    } else {
      var n := |live| - 1;
      FromRecords(live[..n], blocks, p);
      assert live == live[..n] + [live[n]];
      AddedUp(live[..n], blocks, live[n]);
      AddedUp(From(live[..n], blocks, p), blocks, live[n]);
      assert From(live[..n], blocks, p) + [] == From(live[..n], blocks, p);
    }
  }

  lemma NothingLive(blocks: map<nat, Block>)
    ensures RecordedInAll([], blocks) == LiveBytes([], blocks) == 0
  {
  }

  lemma {:induction false} BlockIsLive(live: seq<nat>, blocks: map<nat, Block>, ptr: nat)
    requires Listed(live, blocks) && ptr in live
    ensures ptr in blocks && |blocks[ptr].data| <= LiveBytes(live, blocks)
  {
    var n := |live| - 1;
    if live[n] != ptr {
      assert live == live[..n] + [live[n]];
      BlockIsLive(live[..n], blocks, ptr);
    }
  }

  ghost predicate SlotIsSmall(live: seq<nat>, blocks: map<nat, Block>, p: nat)
    requires Listed(live, blocks)
  {
    Listed(From(live, blocks, p), blocks) && SmallBlocks(From(live, blocks, p), blocks)
  }

  ghost function SlotBytes(live: seq<nat>, blocks: map<nat, Block>, p: nat): nat
    requires Listed(live, blocks)
  {
    FromRecords(live, blocks, p);
    LiveBytes(From(live, blocks, p), blocks)
  }

  // The shortfall of the counter of one slot
  lemma SlotShortfall(live: seq<nat>, blocks: map<nat, Block>, sizes: seq<nat>, p: nat) returns (k: nat)
    requires BlocksOk(live, blocks, |sizes|) && Balanced(live, blocks, sizes) && p < |sizes|
    ensures sizes[p] == (SlotBytes(live, blocks, p) - 0x1_0000_0000 * k) % WORD
    ensures 0x8000_0000 * k <= SlotBytes(live, blocks, p) <= LiveBytes(live, blocks)
    ensures k == 0 <==> SlotIsSmall(live, blocks, p)
  {
    hide From, RecordedInAll, LiveBytes, Recorded, Int32, SmallBlocks;
    FromLists(live, blocks, p);
    FromRecords(live, blocks, p);
    var from := From(live, blocks, p);
    assert forall i | 0 <= i < |from| :: from[i] in from;
    k := RecordedShortfall(from, blocks);
  }

  // The counter of a slot is the number of live bytes allocated from it exactly when none of its blocks has 2^31
  // bytes or more.
  lemma CounterIsBytes(live: seq<nat>, blocks: map<nat, Block>, sizes: seq<nat>, p: nat)
    requires BlocksOk(live, blocks, |sizes|) && Balanced(live, blocks, sizes) && p < |sizes|
    requires LiveBytes(live, blocks) < 0x8000_0000_0000_0000
    ensures sizes[p] == SlotBytes(live, blocks, p) <==> SlotIsSmall(live, blocks, p)
  {
    hide SlotBytes, SlotIsSmall, LiveBytes, Balanced, BlocksOk;
    var k := SlotShortfall(live, blocks, sizes, p);
    if k > 0 {
      assert 0 < 0x1_0000_0000 * k < WORD;
    }
  }

  // The counter then covers each of its blocks, so that subtracting one does not wrap.
  lemma CounterCoversBlock(live: seq<nat>, blocks: map<nat, Block>, sizes: seq<nat>, ptr: nat)
    requires BlocksOk(live, blocks, |sizes|) && Balanced(live, blocks, sizes) && ptr in blocks
    requires SlotIsSmall(live, blocks, blocks[ptr].htPos) && LiveBytes(live, blocks) < WORD
    ensures var b := blocks[ptr];
            b.htPos < |sizes| && sizes[b.htPos] == SlotBytes(live, blocks, b.htPos) && b.size == |b.data| <= sizes[b.htPos] < WORD
  {
    hide Balanced, SlotBytes, SlotIsSmall, LiveBytes, From;
    var p := blocks[ptr].htPos;
    var k := SlotShortfall(live, blocks, sizes, p);
    SlotHasBlock(live, blocks, ptr);
  }

  lemma SlotHasBlock(live: seq<nat>, blocks: map<nat, Block>, ptr: nat)
    requires Listed(live, blocks) && ptr in live && SlotIsSmall(live, blocks, blocks[ptr].htPos)
    ensures |blocks[ptr].data| <= SlotBytes(live, blocks, blocks[ptr].htPos) && |blocks[ptr].data| < 0x8000_0000
  {
    hide From, LiveBytes;
    var p := blocks[ptr].htPos;
    var from := From(live, blocks, p);
    FromLists(live, blocks, p);
    BlockIsLive(from, blocks, ptr);
    var i :| 0 <= i < |from| && from[i] == ptr;
  }

  // ---------- malloc, calloc, realloc and free ----------

  class Profiler {
    const table: Table
    const sizes: array<nat>
    var blocks: map<nat, Block>
    ghost var live: seq<nat>

    ghost predicate Valid()
      reads this, table, table.slots, sizes
    {
      && table.Valid() && sizes != table.slots && sizes.Length == table.slots.Length
      && BlocksOk(live, blocks, sizes.Length)
      && Balanced(live, blocks, sizes[..])
    }

    constructor (n: nat)
      requires FewThreads(n, 1)
      ensures Valid() && blocks == map[] && fresh(table) && fresh(table.slots) && fresh(sizes)
    {
      table := new Table(n);
      sizes := new nat[n](_ => 0);
      blocks, live := map[], [];
      new;
      assert forall p | 0 <= p < n :: sizes[..][p] == 0;
    }

    // malloc_with_frame: addr is the block the C library hands out, data what happens to be in it.
    method MallocWithFrame(data: seq<Byte>, hash: nat, addr: nat) returns (ptr: nat)
      requires Valid() && addr != 0 && addr !in blocks
      modifies this, table, table.slots, sizes
      ensures Valid() && ptr == addr
      ensures ptr in blocks && blocks == old(blocks)[ptr := Block(data, Int32(|data|), blocks[ptr].htPos)]
      ensures Answers(old(table.slots[..]), old(table.size), hash, table.slots[..], table.size, blocks[ptr].htPos)
    {
      hide BlocksOk, Balanced, Answers, TableOk;
      var pos := table.GetPos(hash, false);
      AnswerInRange(old(table.slots[..]), old(table.size), hash, table.slots[..], table.size, pos);
      var block := Block(data, Int32(|data|), pos);
      assert sizes[..] == old(sizes[..]);
      MallocBalances(live, blocks, sizes[..], addr, block);
      sizes[pos] := (sizes[pos] + block.size) % WORD;
      blocks := blocks[addr := block];
      live := live + [addr];
      ptr := addr;
    }

    method Free(ptr: nat)
      requires Valid() && (ptr != 0 ==> ptr in blocks)
      modifies this, sizes
      ensures Valid() && blocks == old(blocks) - {ptr}
      ensures ptr != 0 && old(LiveBytes(live, blocks)) < WORD && old(SlotIsSmall(live, blocks, blocks[ptr].htPos)) ==>
                var b := old(blocks[ptr]); old(sizes[b.htPos]) >= |b.data| && sizes[b.htPos] == old(sizes[b.htPos]) - |b.data|
    {
      hide BlocksOk, Balanced, TableOk, SlotIsSmall, LiveBytes;
      if ptr == 0 {
        NullIsNoBlock(live, blocks, sizes.Length);
        return;
      }
      var block := blocks[ptr];
      BlocksAreListed(live, blocks, sizes.Length);
      if LiveBytes(live, blocks) < WORD && SlotIsSmall(live, blocks, block.htPos) {
        CounterCoversBlock(live, blocks, sizes[..], ptr);
      }
      ghost var i := FreeBalances(live, blocks, sizes[..], ptr);
      sizes[block.htPos] := (sizes[block.htPos] - block.size) % WORD;
      assert sizes[..] == old(sizes[..])[block.htPos := (old(sizes[..])[block.htPos] - block.size) % WORD];
      blocks := blocks - {ptr};
      live := Without(live, i);
    }

    method Calloc(a: nat, b: nat, hash: nat, addr: nat) returns (ptr: nat)
      requires Valid() && addr != 0 && addr !in blocks
      modifies this, table, table.slots, sizes
      ensures Valid() && ptr == addr && ptr in blocks
      ensures blocks == old(blocks)[ptr := blocks[ptr]]
      ensures Answers(old(table.slots[..]), old(table.size), hash, table.slots[..], table.size, blocks[ptr].htPos)
      ensures |blocks[ptr].data| == (a * b) % WORD && forall k | 0 <= k < |blocks[ptr].data| :: blocks[ptr].data[k] == 0
    {
      ptr := MallocWithFrame(seq((a * b) % WORD, _ => 0), hash, addr);
    }

    // The new block begins with as many bytes of the old one, which is gone, as CopiedBytes says. A negative number
    // of bytes to copy has no defined effect.
    method Realloc(from: nat, data: seq<Byte>, hash: nat, addr: nat) returns (ptr: nat)
      requires Valid() && addr != 0 && addr !in blocks && (from != 0 ==> from in blocks)
      requires from != 0 ==> CopiedBytes(|blocks[from].data|, |data|) >= 0
      modifies this, table, table.slots, sizes
      ensures Valid() && ptr == addr && ptr in blocks && |blocks[ptr].data| == |data|
      ensures blocks == old(blocks)[ptr := blocks[ptr]] - {from}
      ensures Answers(old(table.slots[..]), old(table.size), hash, table.slots[..], table.size, blocks[ptr].htPos)
      ensures from != 0 ==>
                var was := old(blocks[from].data);
                var copied := CopiedBytes(|was|, |data|);
                copied <= |was| && copied <= |data| && blocks[ptr].data == was[..copied] + data[copied..]
    {
      if from == 0 {
        ptr := MallocWithFrame(data, hash, addr);
        NullIsNoBlock(live, blocks, sizes.Length);
        return;
      }
      var was := blocks[from].data;
      SizeIsOf(live, blocks, sizes.Length, from);
      var size := Int32(|data|);
      var copied := if size < blocks[from].size then size else blocks[from].size;
      ptr := MallocWithFrame(was[..copied] + data[copied..], hash, addr);
      Free(from);
    }

    // The counters of all slots, summed in 64-bit arithmetic.
    method GetUsedMemorySize() returns (used: nat)
      requires Valid()
      ensures used == RecordedInAll(live, blocks) % WORD
      ensures LiveBytes(live, blocks) < 0x8000_0000_0000_0000 && SmallBlocks(live, blocks) ==> used == LiveBytes(live, blocks)
    {
      hide Balanced, Recorded, TableOk;
      used := 0;
      for p := 0 to sizes.Length
        invariant used == RecordedUpTo(live, blocks, p) % WORD
      {
        CounterOf(live, blocks, sizes[..], p);
        if sizes[p] != 0 {
          used := (used + sizes[p]) % WORD;
        }
      }
      AllRecorded(live, blocks, sizes.Length);
      if LiveBytes(live, blocks) < 0x8000_0000_0000_0000 { UsedIsLiveBytes(live, blocks, sizes.Length); }
    }
  }

  lemma BlocksAreListed(live: seq<nat>, blocks: map<nat, Block>, n: nat)
    requires BlocksOk(live, blocks, n)
    ensures Listed(live, blocks)
  {
  }

  lemma SizeIsOf(live: seq<nat>, blocks: map<nat, Block>, n: nat, ptr: nat)
    requires BlocksOk(live, blocks, n) && ptr in blocks
    ensures blocks[ptr].size == Int32(|blocks[ptr].data|)
  {
  }

  lemma NullIsNoBlock(live: seq<nat>, blocks: map<nat, Block>, n: nat)
    requires BlocksOk(live, blocks, n)
    ensures blocks - {0} == blocks
  {
  }

  lemma CounterOf(live: seq<nat>, blocks: map<nat, Block>, sizes: seq<nat>, p: nat)
    requires Listed(live, blocks) && Balanced(live, blocks, sizes) && p < |sizes|
    ensures sizes[p] == Recorded(live, blocks, p) % WORD
  {
  }

  lemma AllRecorded(live: seq<nat>, blocks: map<nat, Block>, n: nat)
    requires BlocksOk(live, blocks, n)
    ensures RecordedUpTo(live, blocks, n) == RecordedInAll(live, blocks)
  {
    SlotsRecordAll(live, blocks, n);
  }

  lemma MallocBalances(live: seq<nat>, blocks: map<nat, Block>, sizes: seq<nat>, ptr: nat, b: Block)
    requires BlocksOk(live, blocks, |sizes|) && Balanced(live, blocks, sizes)
    requires ptr != 0 && ptr !in blocks && b.htPos < |sizes| && b.size == Int32(|b.data|)
    ensures BlocksOk(live + [ptr], blocks[ptr := b], |sizes|)
    ensures Balanced(live + [ptr], blocks[ptr := b], sizes[b.htPos := (sizes[b.htPos] + b.size) % WORD])
  {
    hide Int32, Recorded;
    var sizes' := sizes[b.htPos := (sizes[b.htPos] + b.size) % WORD];
    assert ptr !in live;
    assert Listed(live + [ptr], blocks[ptr := b]);
    forall p | 0 <= p < |sizes'| ensures sizes'[p] == Recorded(live + [ptr], blocks[ptr := b], p) % WORD {
      AddBlock(live, blocks, ptr, b, p);
      ModAdd(Recorded(live, blocks, p), b.size, WORD);
    }
  }

  lemma FreeKeepsBlocks(live: seq<nat>, blocks: map<nat, Block>, n: nat, i: nat)
    requires BlocksOk(live, blocks, n) && i < |live|
    ensures BlocksOk(Without(live, i), blocks - {live[i]}, n)
  {
    hide Int32;
    var ptr, rest := live[i], Without(live, i);
    forall j | 0 <= j < |rest| ensures rest[j] == live[if j < i then j else j + 1] && rest[j] != ptr {
    }
    forall q | q in blocks - {ptr} ensures q in rest {
      var j :| 0 <= j < |live| && live[j] == q;
      assert rest[if j < i then j else j - 1] == q;
    }
  }

  lemma FreeBalances(live: seq<nat>, blocks: map<nat, Block>, sizes: seq<nat>, ptr: nat) returns (i: nat)
    requires BlocksOk(live, blocks, |sizes|) && Balanced(live, blocks, sizes) && ptr in blocks
    ensures i < |live| && live[i] == ptr
    ensures BlocksOk(Without(live, i), blocks - {ptr}, |sizes|)
    ensures var b := blocks[ptr];
            b.htPos < |sizes|
            && Balanced(Without(live, i), blocks - {ptr}, sizes[b.htPos := (sizes[b.htPos] - b.size) % WORD])
  {
    i :| 0 <= i < |live| && live[i] == ptr;
    FreeKeepsBlocks(live, blocks, |sizes|, i);
    FreedBalance(live, blocks, sizes, i);
  }

  lemma FreedBalance(live: seq<nat>, blocks: map<nat, Block>, sizes: seq<nat>, i: nat)
    requires Listed(live, blocks) && NoDuplicates(live) && Balanced(live, blocks, sizes) && i < |live|
    requires blocks[live[i]].htPos < |sizes|
    ensures var b := blocks[live[i]];
            && Listed(Without(live, i), blocks - {live[i]})
            && Balanced(Without(live, i), blocks - {live[i]}, sizes[b.htPos := (sizes[b.htPos] - b.size) % WORD])
  {
    hide Recorded, Without, NoDuplicates;
    var ptr := live[i];
    var b := blocks[ptr];
    var rest, sizes' := Without(live, i), sizes[b.htPos := (sizes[b.htPos] - b.size) % WORD];
    RemoveBlock(live, blocks, i, 0);
    forall p | 0 <= p < |sizes'| ensures sizes'[p] == Recorded(rest, blocks - {ptr}, p) % WORD {
      RemoveBlock(live, blocks, i, p);
      ModAdd(Recorded(live, blocks, p), -b.size, WORD);
    }
  }
}
