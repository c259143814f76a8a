/** The single-producer single-consumer ring buffer (bench_queue.cpp, lines 213-337). Each thread keeps its own
    copies of both indices and publishes one of them; all indices are 32-bit and wrap around. The capacity
    divides 2^32, so `index & (capacity - 1)` is the index modulo the capacity before and after wrapping. */
module BufferQueue {
  import opened Basics
  import opened Modular

  const WORD: nat := 0x1_0000_0000

  ghost predicate Capacity(cap: nat) {
    0 < cap < 0x8000_0000 && exists m :: m > 0 && cap * m == WORD
  }

  // One thread's published index and its local copies of the read and the write index.
  datatype Position = Position(i: nat, localReadI: nat, localWriteI: nat)

  datatype Queue = Queue(q: seq<int>, writer: Position, reader: Position)

  function Init(cap: nat): Queue {
    Queue(seq(cap, _ => 0), Position(0, 0, 0), Position(0, 0, 0))
  }

  function Sub(a: nat, b: nat): nat {
    (a - b) % WORD
  }

  predicate ReaderEmpty(s: Queue) {
    s.reader.localWriteI == s.reader.localReadI
  }

  predicate WriterFull(s: Queue, cap: nat) {
    s.writer.localWriteI == (s.writer.localReadI + cap) % WORD
  }

  function ReaderReady(s: Queue): int {
    Int32(Sub(s.reader.localWriteI, s.reader.localReadI))
  }

  function WriterReady(s: Queue, cap: nat): int {
    Int32(Sub((s.writer.localReadI + cap) % WORD, s.writer.localWriteI))
  }

  // The accesses each thread makes, each of them one step.
  datatype Event =
    | PutUnsafe(value: int) | FlushWriter | UpdateWriter
    | GetUnsafe | FlushReader | UpdateReader

  // put_unsafe is only called when the writer sees room, get_unsafe only when the reader sees a value.
  predicate Enabled(s: Queue, e: Event, cap: nat) {
    match e
    case PutUnsafe(_) => !WriterFull(s, cap)
    case GetUnsafe => !ReaderEmpty(s)
    case _ => true
  }

  function Apply(s: Queue, e: Event, cap: nat): Queue
    requires |s.q| == cap > 0
  {
    match e
    case PutUnsafe(v) =>
      s.(q := s.q[s.writer.localWriteI % cap := v],
         writer := s.writer.(localWriteI := (s.writer.localWriteI + 1) % WORD))
    case FlushWriter => s.(writer := s.writer.(i := s.writer.localWriteI))
    case UpdateWriter => s.(writer := s.writer.(localReadI := s.reader.i))
    case GetUnsafe => s.(reader := s.reader.(localReadI := (s.reader.localReadI + 1) % WORD))
    case FlushReader => s.(reader := s.reader.(i := s.reader.localReadI))
    case UpdateReader => s.(reader := s.reader.(localWriteI := s.writer.i))
  }

  function Value(s: Queue, cap: nat): int
    requires |s.q| == cap > 0
  {
    s.q[s.reader.localReadI % cap]
  }

  // ---------- history ----------

  // What has happened, in unbounded numbers: the values put and got, how many puts the writer has published and
  // the reader has seen, and how many gets the reader has published and the writer has seen.
  datatype History = History(put: seq<int>, got: seq<int>, published: nat, seen: nat, freed: nat, seenFreed: nat)

  const EMPTY: History := History([], [], 0, 0, 0, 0)

  function Record(s: Queue, h: History, e: Event, cap: nat): History
    requires |s.q| == cap > 0
  {
    match e
    case PutUnsafe(v) => h.(put := h.put + [v])
    case FlushWriter => h.(published := |h.put|)
    case UpdateWriter => h.(seenFreed := h.freed)
    case GetUnsafe => h.(got := h.got + [Value(s, cap)])
    case FlushReader => h.(freed := |h.got|)
    case UpdateReader => h.(seen := h.published)
  }

  // The unbounded queue behind the ring: what was put and not yet got.
  function Pending(h: History): seq<int>
    requires |h.got| <= |h.put|
  {
    h.put[|h.got|..]
  }

  ghost predicate Ordered(h: History, cap: nat) {
    h.seenFreed <= h.freed <= |h.got| <= h.seen <= h.published <= |h.put| <= h.seenFreed + cap
  }

  // The 32-bit indices are the counts, wrapped.
  ghost predicate Wrapped(s: Queue, h: History) {
    && s.writer == Position(h.published % WORD, h.seenFreed % WORD, |h.put| % WORD)
    && s.reader == Position(h.freed % WORD, |h.got| % WORD, h.seen % WORD)
  }

  ghost predicate Cells(q: seq<int>, h: History, cap: nat)
    requires |q| == cap > 0
  {
    forall k | |h.got| <= k < |h.put| :: q[k % cap] == h.put[k]
  }

  ghost predicate Inv(s: Queue, h: History, cap: nat) {
    && Capacity(cap) && |s.q| == cap
    && Ordered(h, cap) && Wrapped(s, h) && Cells(s.q, h, cap)
    && h.got <= h.put
  }

  lemma Mask(k: nat, cap: nat)
    requires Capacity(cap)
    ensures (k % WORD) % cap == k % cap
  {
    var m :| m > 0 && cap * m == WORD;
    ModMod(k, cap, m);
  }

  lemma WrapStep(k: nat)
    ensures (k % WORD + 1) % WORD == (k + 1) % WORD
  {
  }

  // The writer sees room exactly when there is less than the capacity between it and what it knows was read.
  lemma FullMeans(s: Queue, h: History, cap: nat)
    requires Inv(s, h, cap)
    ensures WriterFull(s, cap) <==> |h.put| == h.seenFreed + cap
    ensures WriterReady(s, cap) == h.seenFreed + cap - |h.put|
    ensures ReaderEmpty(s) <==> |h.got| == h.seen
    ensures ReaderReady(s) == h.seen - |h.got|
  {
    hide Cells, Sub, Int32;
    Wraps(h.seenFreed, cap);
    Difference(h.seenFreed + cap, |h.put|);
    Difference(h.seen, |h.got|);
  }

  lemma Wraps(x: nat, y: nat)
    ensures (x % WORD + y) % WORD == (x + y) % WORD
  {
  }

  // The difference of two wrapped counts that are not too far apart is the difference of the counts.
  lemma Difference(x: nat, y: nat)
    requires y <= x < y + 0x8000_0000
    ensures Int32(Sub(x % WORD, y % WORD)) == x - y
    ensures x % WORD == y % WORD <==> x == y
  {
  }

  // Two counts less than a capacity apart are at different cells.
  lemma CellsDiffer(j: nat, k: nat, cap: nat)
    requires cap > 0 && j < k < j + cap
    ensures j % cap != k % cap
  {
    if j % cap == k % cap { ModClose(j, k, cap); }
  }

  lemma PutKeeps(s: Queue, h: History, v: int, cap: nat)
    requires Inv(s, h, cap) && !WriterFull(s, cap)
    ensures Inv(Apply(s, PutUnsafe(v), cap), Record(s, h, PutUnsafe(v), cap), cap)
  {
    FullMeans(s, h, cap);
    Mask(|h.put|, cap);
    WrapStep(|h.put|);
    var s', h' := Apply(s, PutUnsafe(v), cap), Record(s, h, PutUnsafe(v), cap);
    forall k | |h'.got| <= k < |h'.put| ensures s'.q[k % cap] == h'.put[k] {
      if k < |h.put| { CellsDiffer(k, |h.put|, cap); }
    }
  }

  // A get returns the value that was put at its place in the order.
  lemma GetKeeps(s: Queue, h: History, cap: nat)
    requires Inv(s, h, cap) && !ReaderEmpty(s)
    ensures |h.got| < |h.put| && Value(s, cap) == h.put[|h.got|]
    ensures Inv(Apply(s, GetUnsafe, cap), Record(s, h, GetUnsafe, cap), cap)
  {
    FullMeans(s, h, cap);
    Mask(|h.got|, cap);
    WrapStep(|h.got|);
  }

  lemma StepKeeps(s: Queue, h: History, e: Event, cap: nat)
    requires Inv(s, h, cap) && Enabled(s, e, cap)
    ensures Inv(Apply(s, e, cap), Record(s, h, e, cap), cap)
  {
    match e
    case PutUnsafe(v) => PutKeeps(s, h, v, cap);
    case GetUnsafe => GetKeeps(s, h, cap);
    case _ =>
  }

  // ---------- every interleaving ----------

  datatype Run = Run(queue: Queue, history: History)

  // The threads' accesses in any order; an access its thread would not make in the state at hand is skipped.
  function Exec(events: seq<Event>, cap: nat): (r: Run)
    requires cap > 0
    ensures |r.queue.q| == cap
  {
    if events == [] then Run(Init(cap), EMPTY)
    else
      var r, e := Exec(events[..|events| - 1], cap), events[|events| - 1];
      if Enabled(r.queue, e, cap) then Run(Apply(r.queue, e, cap), Record(r.queue, r.history, e, cap)) else r
  }

  lemma {:induction false} ExecKeeps(events: seq<Event>, cap: nat)
    requires Capacity(cap)
    ensures var r := Exec(events, cap); Inv(r.queue, r.history, cap)
  {
    if events != [] {
      var r, e := Exec(events[..|events| - 1], cap), events[|events| - 1];
      ExecKeeps(events[..|events| - 1], cap);
      if Enabled(r.queue, e, cap) { StepKeeps(r.queue, r.history, e, cap); }
    }
  }

  // Whatever the interleaving and however often the indices wrap, the values got are a prefix of the values put,
  // at most the capacity is in between, and only published values were got.
  lemma FirstInFirstOut(events: seq<Event>, cap: nat)
    requires Capacity(cap)
    ensures var h := Exec(events, cap).history;
            h.got <= h.put && |h.put| - |h.got| <= cap && |h.got| <= h.published
  {
    ExecKeeps(events, cap);
  }

  // Seen from outside, every step is a step of an unbounded first-in first-out queue.
  lemma RefinesQueue(events: seq<Event>, e: Event, cap: nat)
    requires Capacity(cap) && Enabled(Exec(events, cap).queue, e, cap)
    ensures var r, r' := Exec(events, cap), Exec(events + [e], cap);
            var h, h' := r.history, r'.history;
            && |h.got| <= |h.put| && |h'.got| <= |h'.put|
            && (e.GetUnsafe? ==>
                  Pending(h) != [] && h'.got == h.got + [Pending(h)[0]] && Pending(h') == Pending(h)[1..])
            && (!e.GetUnsafe? ==>
                  h'.got == h.got && Pending(h') == Pending(h) + if e.PutUnsafe? then [e.value] else [])
  {
    ExecKeeps(events, cap);
    ExecKeeps(events + [e], cap);
    assert (events + [e])[..|events|] == events;
    var r := Exec(events, cap);
    if e.GetUnsafe? { GetKeeps(r.queue, r.history, cap); }
  }

  // The cells the writer may write next and the cells the reader may read next are disjoint.
  lemma CellsAreSeparate(events: seq<Event>, cap: nat, w: nat, r: nat)
    requires Capacity(cap)
    requires var h := Exec(events, cap).history; |h.put| <= w < h.seenFreed + cap && |h.got| <= r < h.seen
    ensures (w % WORD) % cap != (r % WORD) % cap
  {
    ExecKeeps(events, cap);
    Mask(w, cap);
    Mask(r, cap);
    CellsDiffer(r, w, cap);
  }

  // "put strong failed": after looking at the reader's index again there is no room exactly when a full capacity
  // of values has not been freed by the reader.
  lemma PutFailsWhen(events: seq<Event>, cap: nat)
    requires Capacity(cap)
    ensures var r := Exec(events, cap);
            WriterReady(Apply(r.queue, UpdateWriter, cap), cap) == cap - (|r.history.put| - r.history.freed)
  {
    ExecKeeps(events, cap);
    var r := Exec(events, cap);
    StepKeeps(r.queue, r.history, UpdateWriter, cap);
    FullMeans(Apply(r.queue, UpdateWriter, cap), Record(r.queue, r.history, UpdateWriter, cap), cap);
  }

  // ---------- the queue as an object ----------

  class RingBuffer {
    const q: array<int>
    var writerI: nat
    var writerLocalReadI: nat
    var writerLocalWriteI: nat
    var readerI: nat
    var readerLocalReadI: nat
    var readerLocalWriteI: nat
    ghost var history: History

    ghost function View(): (s: Queue)
      reads this, q
    {
      Queue(q[..], Position(writerI, writerLocalReadI, writerLocalWriteI), Position(readerI, readerLocalReadI, readerLocalWriteI))
    }

    ghost predicate Valid()
      reads this, q
    {
      Inv(View(), history, q.Length)
    }

    constructor (cap: nat)
      requires Capacity(cap)
      ensures Valid() && fresh(q) && q.Length == cap && View() == Init(cap) && history == EMPTY
    {
      q := new int[cap](_ => 0);
      writerI, writerLocalReadI, writerLocalWriteI := 0, 0, 0;
      readerI, readerLocalReadI, readerLocalWriteI := 0, 0, 0;
      history := EMPTY;
      new;
      assert q[..] == seq(cap, _ => 0);
    }

    method PutUnsafe(value: int)
      requires Valid() && !WriterFull(View(), q.Length)
      modifies q, `writerLocalWriteI, `history
      ensures Valid() && View() == Apply(old(View()), Event.PutUnsafe(value), q.Length)
      ensures history == old(history).(put := old(history).put + [value])
    {
      hide Inv;
      InvRanges(View(), history, q.Length);
      StepKeeps(View(), history, Event.PutUnsafe(value), q.Length);
      q[writerLocalWriteI % q.Length] := value;
      assert q[..] == old(q[..])[writerLocalWriteI % q.Length := value];
      writerLocalWriteI := (writerLocalWriteI + 1) % WORD;
      history := history.(put := history.put + [value]);
    }

    method FlushWriter()
      requires Valid()
      modifies `writerI, `history
      ensures Valid() && View() == Apply(old(View()), Event.FlushWriter, q.Length)
      ensures history == old(history).(published := |old(history).put|)
    {
      hide Inv;
      InvRanges(View(), history, q.Length);
      StepKeeps(View(), history, Event.FlushWriter, q.Length);
      writerI := writerLocalWriteI;
      history := history.(published := |history.put|);
    }

    method UpdateWriter() returns (ready: int)
      requires Valid()
      modifies `writerLocalReadI, `history
      ensures Valid() && View() == Apply(old(View()), Event.UpdateWriter, q.Length)
      ensures history == old(history).(seenFreed := old(history).freed)
      ensures ready == q.Length - (|history.put| - history.freed)
    {
      hide Inv;
      InvRanges(View(), history, q.Length);
      StepKeeps(View(), history, Event.UpdateWriter, q.Length);
      writerLocalReadI := readerI;
      history := history.(seenFreed := history.freed);
      FullMeans(View(), history, q.Length);
      ready := Int32(Sub((writerLocalReadI + q.Length) % WORD, writerLocalWriteI));
    }

    method GetUnsafe() returns (value: int)
      requires Valid() && !ReaderEmpty(View())
      modifies `readerLocalReadI, `history
      ensures Valid() && View() == Apply(old(View()), Event.GetUnsafe, q.Length)
      ensures |old(history).got| < |history.put| && value == history.put[|old(history).got|]
      ensures history == old(history).(got := old(history).got + [value])
    {
      hide Inv;
      InvRanges(View(), history, q.Length);
      StepKeeps(View(), history, Event.GetUnsafe, q.Length);
      GetKeeps(View(), history, q.Length);
      value := q[readerLocalReadI % q.Length];
      readerLocalReadI := (readerLocalReadI + 1) % WORD;
      history := history.(got := history.got + [value]);
    }

    method FlushReader()
      requires Valid()
      modifies `readerI, `history
      ensures Valid() && View() == Apply(old(View()), Event.FlushReader, q.Length)
      ensures history == old(history).(freed := |old(history).got|)
    {
      hide Inv;
      InvRanges(View(), history, q.Length);
      StepKeeps(View(), history, Event.FlushReader, q.Length);
      readerI := readerLocalReadI;
      history := history.(freed := |history.got|);
    }

    method UpdateReader() returns (ready: int)
      requires Valid()
      modifies `readerLocalWriteI, `history
      ensures Valid() && View() == Apply(old(View()), Event.UpdateReader, q.Length)
      ensures history == old(history).(seen := old(history).published)
      ensures ready == history.published - |history.got|
    {
      hide Inv;
      InvRanges(View(), history, q.Length);
      StepKeeps(View(), history, Event.UpdateReader, q.Length);
      readerLocalWriteI := writerI;
      history := history.(seen := history.published);
      FullMeans(View(), history, q.Length);
      ready := Int32(Sub(readerLocalWriteI, readerLocalReadI));
    }

    // put_noflush: fails only with a full capacity of values the reader has not freed.
    method PutNoflush(value: int) returns (ok: bool)
      requires Valid()
      modifies q, `writerLocalReadI, `writerLocalWriteI, `history
      ensures Valid()
      ensures ok <==> |old(history).put| < old(history).freed + q.Length
      ensures history.put == old(history).put + (if ok then [value] else [])
      ensures history.got == old(history).got && history.published == old(history).published
    {
      hide Inv, Apply, Sub, Int32;
      InvRanges(View(), history, q.Length);
      FullMeans(View(), history, q.Length);
      if writerLocalWriteI != (writerLocalReadI + q.Length) % WORD {
        PutUnsafe(value);
        return true;
      }
      var ready := UpdateWriter();
      if ready == 0 {
        return false;
      }
      FullMeans(View(), history, q.Length);
      PutUnsafe(value);
      return true;
    }
  }

  lemma InvRanges(s: Queue, h: History, cap: nat)
    requires Inv(s, h, cap)
    ensures |s.q| == cap && 0 < cap < 0x8000_0000 && Ordered(h, cap)
  {
  }
}
