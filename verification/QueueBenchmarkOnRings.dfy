/** QueueBenchmark run over two ring buffers (bench_queue.cpp, lines 298-333 and 731-786), one access to a ring at a
    time: the client and the server spin, take, free, put and publish in any interleaving. */
module QueueBenchmarkOnRings {
  import Q = BufferQueue
  import opened Basics
  import opened Counting
  import opened QueueBenchmark

  // What a thread does next to a ring: whatever its program counter says, or the rest of a get or a put.
  datatype Micro =
    | Ready
    | Unfreed      // get: the value is taken, flush_reader() is next
    | Retried      // put_noflush: update_writer() was called, its result is looked at next
    | Unpublished  // put: the value is in the ring, flush_writer() is next
    | Failed       // "put strong failed"

  // p holds the threads' variables; its queues are what the rings stand for and decide nothing.
  datatype World = World(p: State, toServer: Q.Run, toClient: Q.Run, server: Micro, client: Micro)

  datatype Move = Spin | Get | Free | Check | Put | Retry | PutAgain | Publish

  function Init(n: nat, cap: nat): World {
    World(QueueBenchmark.Init(n), Q.Run(Q.Init(cap), Q.EMPTY), Q.Run(Q.Init(cap), Q.EMPTY), Ready, Ready)
  }

  function In(w: World, who: Who): Q.Run { if who.Server? then w.toServer else w.toClient }
  function Out(w: World, who: Who): Q.Run { if who.Server? then w.toClient else w.toServer }
  function MicroOf(w: World, who: Who): Micro { if who.Server? then w.server else w.client }
  function InQ(p: State, who: Who): seq<int> { if who.Server? then p.serverQ else p.clientQ }

  predicate Gets(p: State, who: Who) { if who.Server? then p.serverPc.SGet? else p.clientPc.CGet? }
  predicate Got(p: State, who: Who) { if who.Server? then p.serverPc.SGot? else p.clientPc.CGot? }
  predicate Puts(p: State, who: Who) { if who.Server? then p.serverPc.SPut? else p.clientPc.CInit? || p.clientPc.CPut? }

  // The value a thread is about to put
  function Putting(p: State, who: Who): int
    requires Puts(p, who)
  {
    if who.Server? then p.serverPc.v
    else match p.clientPc
      case CInit(i) => Int32(i * SHIFT)
      case CPut(v) => v
  }

  // The thread has taken v.
  function Take(p: State, who: Who, v: int): State {
    var rest := if InQ(p, who) == [] then [] else InQ(p, who)[1..];
    if who.Server? then p.(serverQ := rest, serverPc := SGot(v), at := Place(p.at, Co(v), ServerGot(No(v))))
    else p.(clientQ := rest, clientPc := CGot(v), at := Place(p.at, Co(v), ClientGot(No(v))))
  }

  function WithMicro(w: World, who: Who, m: Micro): World {
    if who.Server? then w.(server := m) else w.(client := m)
  }

  function WithIn(w: World, who: Who, r: Q.Run): World {
    if who.Server? then w.(toServer := r) else w.(toClient := r)
  }

  function WithOut(w: World, who: Who, r: Q.Run): World {
    if who.Server? then w.(toClient := r) else w.(toServer := r)
  }

  function After(r: Q.Run, e: Q.Event, cap: nat): Q.Run
    requires |r.queue.q| == cap > 0
  {
    Q.Run(Q.Apply(r.queue, e, cap), Q.Record(r.queue, r.history, e, cap))
  }

  predicate Shaped(w: World, cap: nat) {
    cap > 0 && |w.toServer.queue.q| == cap && |w.toClient.queue.q| == cap
  }

  predicate CanMove(w: World, who: Who, move: Move, cap: nat) {
    var m, p := MicroOf(w, who), w.p;
    match move
    case Spin => m.Ready? && Gets(p, who)
    case Get => m.Ready? && Gets(p, who) && !Q.ReaderEmpty(In(w, who).queue)
    case Free => m.Unfreed?
    case Check => m.Ready? && Got(p, who)
    case Put => m.Ready? && Puts(p, who) && !Q.WriterFull(Out(w, who).queue, cap)
    case Retry => m.Ready? && Puts(p, who) && Q.WriterFull(Out(w, who).queue, cap)
    case PutAgain => m.Retried? && Puts(p, who)
    case Publish => m.Unpublished?
  }

  function PutValue(w: World, who: Who, queries: int, cap: nat): World
    requires Shaped(w, cap) && Puts(w.p, who)
  {
    WithMicro(WithOut(w, who, After(Out(w, who), Q.PutUnsafe(Putting(w.p, who)), cap)), who, Unpublished)
      .(p := Step(w.p, who, queries))
  }

  function DoMove(w: World, who: Who, move: Move, queries: int, cap: nat): World
    requires Shaped(w, cap) && CanMove(w, who, move, cap)
  {
    match move
    case Spin => WithIn(w, who, After(In(w, who), Q.UpdateReader, cap))
    case Get =>
      WithMicro(WithIn(w, who, After(In(w, who), Q.GetUnsafe, cap)), who, Unfreed)
        .(p := Take(w.p, who, Q.Value(In(w, who).queue, cap)))
    case Free => WithMicro(WithIn(w, who, After(In(w, who), Q.FlushReader, cap)), who, Ready)
    case Check => w.(p := Step(w.p, who, queries))
    case Put => PutValue(w, who, queries, cap)
    case Retry => WithMicro(WithOut(w, who, After(Out(w, who), Q.UpdateWriter, cap)), who, Retried)
    case PutAgain =>
      if Q.WriterReady(Out(w, who).queue, cap) == 0 then WithMicro(w, who, Failed) else PutValue(w, who, queries, cap)
    case Publish => WithMicro(WithOut(w, who, After(Out(w, who), Q.FlushWriter, cap)), who, Ready)
  }

  // ---------- the invariant ----------

  // The ring a thread reads from holds the queue to it. Its published indices lag by one while a value is taken but
  // not freed, or put but not published.
  ghost predicate RingOk(w: World, who: Who, cap: nat) {
    var r := In(w, who);
    && Q.Inv(r.queue, r.history, cap)
    && |r.history.got| <= |r.history.put| && Q.Pending(r.history) == InQ(w.p, who)
    && |r.history.got| - r.history.freed == (if MicroOf(w, who).Unfreed? then 1 else 0)
    && |r.history.put| - r.history.published == (if MicroOf(w, Other(who)).Unpublished? then 1 else 0)
  }

  ghost predicate MicroOk(w: World, who: Who, cap: nat) {
    var m := MicroOf(w, who);
    && (m.Unfreed? ==> Got(w.p, who))
    && (m.Retried? ==> Puts(w.p, who) && !Q.WriterFull(Out(w, who).queue, cap))
    && !m.Failed?
  }

  ghost predicate WorldInv(w: World, n: nat, queries: int, cap: nat) {
    && n <= cap && Inv(w.p, n, queries)
    && (forall who :: RingOk(w, who, cap) && MicroOk(w, who, cap))
  }

  function Other(who: Who): Who { if who.Server? then Client else Server }

  lemma RingShape(r: Q.Run, cap: nat)
    requires Q.Inv(r.queue, r.history, cap)
    ensures |r.queue.q| == cap > 0
  {
  }

  lemma WorldShape(w: World, n: nat, queries: int, cap: nat)
    requires WorldInv(w, n, queries, cap)
    ensures Shaped(w, cap)
  {
    assert RingOk(w, Server, cap) && RingOk(w, Client, cap);
    RingShape(w.toServer, cap);
    RingShape(w.toClient, cap);
  }

  // A thread about to put finds room: at most one value per connection is in the ring or not yet freed.
  lemma RoomForPut(w: World, who: Who, n: nat, queries: int, cap: nat)
    requires WorldInv(w, n, queries, cap) && Puts(w.p, who)
    ensures var h := Out(w, who).history; |h.put| - h.freed < cap
  {
    hide Inv, Q.Inv;
    PutHasRoom(w.p, n, queries);
    assert RingOk(w, Other(who), cap) && MicroOk(w, Other(who), cap);
  }

  // ---------- every move keeps it ----------

  // An event of the reader changes nothing the writer looks at.
  lemma ReaderEventKeepsRoom(r: Q.Run, e: Q.Event, cap: nat)
    requires |r.queue.q| == cap > 0 && (e.UpdateReader? || e.GetUnsafe? || e.FlushReader?)
    ensures Q.WriterFull(After(r, e, cap).queue, cap) == Q.WriterFull(r.queue, cap)
  {
  }

  lemma RingStep(r: Q.Run, e: Q.Event, cap: nat)
    requires Q.Inv(r.queue, r.history, cap) && Q.Enabled(r.queue, e, cap)
    ensures |r.queue.q| == cap > 0
    ensures var r' := After(r, e, cap); Q.Inv(r'.queue, r'.history, cap)
  {
    hide Q.Apply, Q.Record;
    RingShape(r, cap);
    Q.StepKeeps(r.queue, r.history, e, cap);
  }

  lemma BothOk(w: World, n: nat, queries: int, cap: nat, who: Who)
    requires n <= cap && Inv(w.p, n, queries)
    requires RingOk(w, who, cap) && MicroOk(w, who, cap) && RingOk(w, Other(who), cap) && MicroOk(w, Other(who), cap)
    ensures WorldInv(w, n, queries, cap)
  {
    hide Inv, RingOk, MicroOk;
    forall any ensures RingOk(w, any, cap) && MicroOk(w, any, cap) {
      assert any == who || any == Other(who);
    }
  }

  lemma ReadMoveKeeps(w: World, who: Who, move: Move, n: nat, queries: int, cap: nat)
    requires WorldInv(w, n, queries, cap) && CanMove(w, who, move, cap) && (move.Spin? || move.Free?)
    ensures Shaped(w, cap) && WorldInv(DoMove(w, who, move, queries, cap), n, queries, cap)
  {
    hide Inv, Q.Inv;
    WorldShape(w, n, queries, cap);
    assert RingOk(w, who, cap) && RingOk(w, Other(who), cap) && MicroOk(w, who, cap) && MicroOk(w, Other(who), cap);
    var e := if move.Spin? then Q.UpdateReader else Q.FlushReader;
    RingStep(In(w, who), e, cap);
    ReaderEventKeepsRoom(In(w, who), e, cap);
    BothOk(DoMove(w, who, move, queries, cap), n, queries, cap, who);
  }

  // The value taken from the ring is the first one in the queue.
  lemma GetKeeps(w: World, who: Who, n: nat, queries: int, cap: nat)
    requires WorldInv(w, n, queries, cap) && CanMove(w, who, Get, cap)
    ensures Shaped(w, cap) && WorldInv(DoMove(w, who, Get, queries, cap), n, queries, cap)
  {
    hide Inv, Q.Inv;
    WorldShape(w, n, queries, cap);
    assert RingOk(w, who, cap) && RingOk(w, Other(who), cap) && MicroOk(w, who, cap) && MicroOk(w, Other(who), cap);
    var r := In(w, who);
    RingStep(r, Q.GetUnsafe, cap);
    Q.GetKeeps(r.queue, r.history, cap);
    ReaderEventKeepsRoom(r, Q.GetUnsafe, cap);
    assert Take(w.p, who, Q.Value(r.queue, cap)) == Step(w.p, who, queries);
    StepKeeps(w.p, who, n, queries);
    BothOk(DoMove(w, who, Get, queries, cap), n, queries, cap, who);
  }

  lemma CheckKeeps(w: World, who: Who, n: nat, queries: int, cap: nat)
    requires WorldInv(w, n, queries, cap) && CanMove(w, who, Check, cap)
    ensures Shaped(w, cap) && WorldInv(DoMove(w, who, Check, queries, cap), n, queries, cap)
  {
    hide Inv, Q.Inv;
    WorldShape(w, n, queries, cap);
    assert RingOk(w, who, cap) && RingOk(w, Other(who), cap) && MicroOk(w, who, cap) && MicroOk(w, Other(who), cap);
    StepKeeps(w.p, who, n, queries);
    BothOk(DoMove(w, who, Check, queries, cap), n, queries, cap, who);
  }

  // A put appends to one queue and leaves the other thread where it is.
  lemma PutStep(p: State, who: Who, queries: int)
    requires Puts(p, who)
    ensures Can(p, who)
    ensures var p', other := Step(p, who, queries), Other(who);
            && InQ(p', other) == InQ(p, other) + [Putting(p, who)] && InQ(p', who) == InQ(p, who)
            && Got(p', other) == Got(p, other) && Puts(p', other) == Puts(p, other)
  {
  }

  lemma PutValueKeeps(w: World, who: Who, n: nat, queries: int, cap: nat)
    requires WorldInv(w, n, queries, cap) && Puts(w.p, who) && !Q.WriterFull(Out(w, who).queue, cap)
    requires MicroOf(w, who).Ready? || MicroOf(w, who).Retried?
    ensures Shaped(w, cap) && WorldInv(PutValue(w, who, queries, cap), n, queries, cap)
  {
    hide Inv, Q.Inv, Q.WriterFull, Step, Q.Value, Putting;
    PutStep(w.p, who, queries);
    WorldShape(w, n, queries, cap);
    assert RingOk(w, who, cap) && RingOk(w, Other(who), cap) && MicroOk(w, who, cap) && MicroOk(w, Other(who), cap);
    var r, v := Out(w, who), Putting(w.p, who);
    RingStep(r, Q.PutUnsafe(v), cap);
    assert (r.history.put + [v])[|r.history.got|..] == r.history.put[|r.history.got|..] + [v];
    StepKeeps(w.p, who, n, queries);
    BothOk(PutValue(w, who, queries, cap), n, queries, cap, who);
  }

  lemma RetryKeeps(w: World, who: Who, n: nat, queries: int, cap: nat)
    requires WorldInv(w, n, queries, cap) && CanMove(w, who, Retry, cap)
    ensures Shaped(w, cap) && WorldInv(DoMove(w, who, Retry, queries, cap), n, queries, cap)
  {
    hide Inv, Q.Inv, Q.WriterFull, Q.WriterReady;
    WorldShape(w, n, queries, cap);
    assert RingOk(w, who, cap) && RingOk(w, Other(who), cap) && MicroOk(w, who, cap) && MicroOk(w, Other(who), cap);
    var r := Out(w, who);
    RingStep(r, Q.UpdateWriter, cap);
    RoomForPut(w, who, n, queries, cap);
    var r' := After(r, Q.UpdateWriter, cap);
    Q.FullMeans(r'.queue, r'.history, cap);
    BothOk(DoMove(w, who, Retry, queries, cap), n, queries, cap, who);
  }

  lemma PublishKeeps(w: World, who: Who, n: nat, queries: int, cap: nat)
    requires WorldInv(w, n, queries, cap) && CanMove(w, who, Publish, cap)
    ensures Shaped(w, cap) && WorldInv(DoMove(w, who, Publish, queries, cap), n, queries, cap)
  {
    hide Inv, Q.Inv;
    WorldShape(w, n, queries, cap);
    assert RingOk(w, who, cap) && RingOk(w, Other(who), cap) && MicroOk(w, who, cap) && MicroOk(w, Other(who), cap);
    RingStep(Out(w, who), Q.FlushWriter, cap);
    BothOk(DoMove(w, who, Publish, queries, cap), n, queries, cap, who);
  }

  lemma MoveKeeps(w: World, who: Who, move: Move, n: nat, queries: int, cap: nat)
    requires WorldInv(w, n, queries, cap) && CanMove(w, who, move, cap)
    ensures Shaped(w, cap) && WorldInv(DoMove(w, who, move, queries, cap), n, queries, cap)
  {
    hide Inv, Q.Inv, Q.WriterFull, Q.WriterReady, RingOk;
    match move
    case Spin => ReadMoveKeeps(w, who, move, n, queries, cap);
    case Free => ReadMoveKeeps(w, who, move, n, queries, cap);
    case Get => GetKeeps(w, who, n, queries, cap);
    case Check => CheckKeeps(w, who, n, queries, cap);
    case Put => PutValueKeeps(w, who, n, queries, cap);
    case Retry => RetryKeeps(w, who, n, queries, cap);
    case PutAgain =>
      assert MicroOk(w, who, cap);
      RetriedIsReady(w, who, n, queries, cap);
      PutValueKeeps(w, who, n, queries, cap);
    case Publish => PublishKeeps(w, who, n, queries, cap);
  }

  lemma RetriedIsReady(w: World, who: Who, n: nat, queries: int, cap: nat)
    requires WorldInv(w, n, queries, cap) && !Q.WriterFull(Out(w, who).queue, cap)
    ensures Q.WriterReady(Out(w, who).queue, cap) != 0
  {
    hide Inv;
    assert RingOk(w, Other(who), cap);
    Q.FullMeans(Out(w, who).queue, Out(w, who).history, cap);
  }

  // ---------- every run ----------

  ghost predicate WorldBehavior(worlds: seq<World>, who: seq<Who>, moves: seq<Move>, n: nat, queries: int, cap: nat) {
    && |worlds| == |moves| + 1 && |who| == |moves| && worlds[0] == Init(n, cap)
    && (forall i | 0 <= i < |moves| ::
          Shaped(worlds[i], cap) && CanMove(worlds[i], who[i], moves[i], cap)
          && worlds[i + 1] == DoMove(worlds[i], who[i], moves[i], queries, cap))
  }

  lemma InitIsOk(n: nat, queries: int, cap: nat)
    requires 1 <= n <= 128 && n <= cap && queries < SHIFT && Q.Capacity(cap)
    ensures WorldInv(Init(n, cap), n, queries, cap)
  {
    hide Inv;
    InitKeeps(n, queries);
    Q.ExecKeeps([], cap);
    BothOk(Init(n, cap), n, queries, cap, Server);
  }

  // No run over rings with room for one value per connection reaches "put strong failed" or a "BUG" branch.
  lemma {:induction false} NeverFails(worlds: seq<World>, who: seq<Who>, moves: seq<Move>, n: nat, queries: int, cap: nat, i: nat)
    requires 1 <= n <= 128 && n <= cap && queries < SHIFT && Q.Capacity(cap)
    requires WorldBehavior(worlds, who, moves, n, queries, cap) && i < |worlds|
    ensures WorldInv(worlds[i], n, queries, cap)
    ensures !worlds[i].server.Failed? && !worlds[i].client.Failed? && !worlds[i].p.serverPc.SBug? && !worlds[i].p.clientPc.CBug?
  {
    if i == 0 {
      InitIsOk(n, queries, cap);
    } else {
      NeverFails(worlds, who, moves, n, queries, cap, i - 1);
      MoveKeeps(worlds[i - 1], who[i - 1], moves[i - 1], n, queries, cap);
    }
    InvMeans(worlds[i], n, queries, cap);
  }

  lemma InvMeans(w: World, n: nat, queries: int, cap: nat)
    requires WorldInv(w, n, queries, cap)
    ensures !w.server.Failed? && !w.client.Failed? && !w.p.serverPc.SBug? && !w.p.clientPc.CBug?
  {
    assert MicroOk(w, Server, cap) && MicroOk(w, Client, cap);
  }

  // Both threads have finished, and so have their last accesses.
  ghost predicate Ended(w: World) {
    Over(w.p) && w.server.Ready? && w.client.Ready?
  }

  // Nor does a run get stuck: unless both threads have finished, some thread can do more than spin, at the latest
  // after it has looked at its ring once more.
  ghost predicate CanGoOn(w: World, who: Who, queries: int, cap: nat)
    requires Shaped(w, cap)
  {
    || (exists move: Move :: !move.Spin? && CanMove(w, who, move, cap))
    || (CanMove(w, who, Spin, cap) && CanMove(DoMove(w, who, Spin, queries, cap), who, Get, cap))
  }

  lemma NeverStuck(w: World, n: nat, queries: int, cap: nat)
    requires WorldInv(w, n, queries, cap)
    ensures Shaped(w, cap)
    ensures Ended(w) || CanGoOn(w, Server, queries, cap) || CanGoOn(w, Client, queries, cap)
  {
    hide Inv, Q.Inv, RingOk, CanGoOn;
    WorldShape(w, n, queries, cap);
    NoDeadlock(w.p, n, queries);
    if !w.server.Ready? {
      RestOfAccess(w, Server, n, queries, cap);
    } else if !w.client.Ready? {
      RestOfAccess(w, Client, n, queries, cap);
    } else if CanServer(w.p) {
      NextAccess(w, Server, n, queries, cap);
    } else if CanClient(w.p) {
      NextAccess(w, Client, n, queries, cap);
    }
  }

  lemma RestOfAccess(w: World, who: Who, n: nat, queries: int, cap: nat)
    requires WorldInv(w, n, queries, cap) && Shaped(w, cap) && !MicroOf(w, who).Ready?
    ensures CanGoOn(w, who, queries, cap)
  {
    hide Inv, Q.Inv, RingOk, Q.WriterFull;
    assert MicroOk(w, who, cap);
    var move := match MicroOf(w, who) case Unfreed => Free case Retried => PutAgain case _ => Publish;
    assert CanMove(w, who, move, cap);
  }

  lemma NextAccess(w: World, who: Who, n: nat, queries: int, cap: nat)
    requires WorldInv(w, n, queries, cap) && Shaped(w, cap) && w.server.Ready? && w.client.Ready? && Can(w.p, who)
    ensures CanGoOn(w, who, queries, cap)
  {
    hide Inv, Q.Inv, Q.WriterFull, Q.ReaderEmpty;
    if Gets(w.p, who) {
      assert RingOk(w, who, cap);
      var r := In(w, who);
      RingStep(r, Q.UpdateReader, cap);
      var r' := After(r, Q.UpdateReader, cap);
      Q.FullMeans(r'.queue, r'.history, cap);
      assert CanMove(DoMove(w, who, Spin, queries, cap), who, Get, cap);
    } else {
      var move := if Got(w.p, who) then Check else if Q.WriterFull(Out(w, who).queue, cap) then Retry else Put;
      assert CanMove(w, who, move, cap);
    }
  }

  // At the end every value put was got, and published and freed.
  lemma EndMeans(w: World, n: nat, queries: int, cap: nat, who: Who)
    requires WorldInv(w, n, queries, cap) && Ended(w)
    ensures var h := In(w, who).history; h.got == h.put && h.published == h.freed == |h.put|
  {
    hide Inv;
    OverMeans(w.p, n, queries);
    assert RingOk(w, who, cap);
  }

  // ---------- how long a run takes ----------

  predicate Works(move: Move) {
    !move.Spin?
  }

  function Weight(m: Micro): nat {
    match m
    case Ready => 1
    case Retried => 0
    case _ => 2
  }

  // An upper bound on the moves other than Spin that are still to be made.
  function Ahead(w: World, r: nat): int {
    3 * TotalLeft(w.p.at, r) + Weight(w.server) + Weight(w.client)
  }

  lemma MoveCounts(w: World, who: Who, move: Move, n: nat, queries: int, cap: nat)
    requires WorldInv(w, n, queries, cap) && CanMove(w, who, move, cap)
    ensures Shaped(w, cap)
    ensures var r, w' := Rounds(queries), DoMove(w, who, move, queries, cap);
            Ahead(w', r) <= Ahead(w, r) - if Works(move) then 1 else 0
  {
    hide Inv, Q.Inv, Q.WriterFull, Q.WriterReady, TotalLeft, Step;
    WorldShape(w, n, queries, cap);
    assert RingOk(w, who, cap) && MicroOk(w, who, cap);
    match move
    case Get => GetCounts(w, who, n, queries, cap);
    case Check => CheckCan(w, who); StepCounts(w.p, who, n, queries);
    case Put => PutCan(w, who); StepCounts(w.p, who, n, queries);
    case PutAgain =>
      RetriedIsReady(w, who, n, queries, cap);
      PutCan(w, who);
      StepCounts(w.p, who, n, queries);
    case _ =>
  }

  lemma PutCan(w: World, who: Who)
    requires Puts(w.p, who)
    ensures Can(w.p, who)
  {
  }

  lemma CheckCan(w: World, who: Who)
    requires Got(w.p, who)
    ensures Can(w.p, who)
  {
  }

  lemma GetCounts(w: World, who: Who, n: nat, queries: int, cap: nat)
    requires WorldInv(w, n, queries, cap) && CanMove(w, who, Get, cap)
    ensures Shaped(w, cap)
    ensures var r, w' := Rounds(queries), DoMove(w, who, Get, queries, cap);
            TotalLeft(w'.p.at, r) == TotalLeft(w.p.at, r) - 1
  {
    hide Inv, Q.Inv, TotalLeft;
    WorldShape(w, n, queries, cap);
    assert RingOk(w, who, cap);
    var r := In(w, who);
    Q.GetKeeps(r.queue, r.history, cap);
    assert Take(w.p, who, Q.Value(r.queue, cap)) == Step(w.p, who, queries);
    StepCounts(w.p, who, n, queries);
  }

  lemma {:induction false} MovesCount(worlds: seq<World>, who: seq<Who>, moves: seq<Move>, n: nat, queries: int, cap: nat, i: nat)
    requires 1 <= n <= 128 && n <= cap && queries < SHIFT && Q.Capacity(cap)
    requires WorldBehavior(worlds, who, moves, n, queries, cap) && i < |worlds|
    ensures Count(moves[..i], Works) + Ahead(worlds[i], Rounds(queries)) <= 3 * n * (6 * Rounds(queries) + 1) + 2
  {
    hide WorldInv, CanMove, DoMove, TotalLeft, Count;
    if i == 0 {
      CountNone(moves[..0], Works);
      TotalLeftOf(worlds[0].p.at, Unsent, Rounds(queries));
    } else {
      MovesCount(worlds, who, moves, n, queries, cap, i - 1);
      NeverFails(worlds, who, moves, n, queries, cap, i - 1);
      MoveCounts(worlds[i - 1], who[i - 1], moves[i - 1], n, queries, cap);
      assert moves[..i] == moves[..i - 1] + [moves[i - 1]];
      CountAppend(moves[..i - 1], moves[i - 1], Works);
    }
  }

  // Whatever the interleaving, a run makes at most 18 moves per round and connection, and two more, that are not
  // spins; while it has not ended it can make another, and once it has, both rings were emptied.
  lemma RunEndsOnRings(worlds: seq<World>, who: seq<Who>, moves: seq<Move>, n: nat, queries: int, cap: nat)
    requires 1 <= n <= 128 && n <= cap && queries < SHIFT && Q.Capacity(cap)
    requires WorldBehavior(worlds, who, moves, n, queries, cap)
    ensures Count(moves, Works) <= 18 * n * Rounds(queries) + 2
    ensures var w := worlds[|moves|];
            && Shaped(w, cap)
            && (if Ended(w) then forall any :: In(w, any).history.got == In(w, any).history.put
                else CanGoOn(w, Server, queries, cap) || CanGoOn(w, Client, queries, cap))
  {
    hide WorldInv, CanMove, DoMove, Ahead, Count, CanGoOn, Ended;
    var w, r := worlds[|moves|], Rounds(queries);
    MovesCount(worlds, who, moves, n, queries, cap, |moves|);
    assert moves[..|moves|] == moves;
    NeverFails(worlds, who, moves, n, queries, cap, |moves|);
    AheadIsMore(w, n, queries, cap);
    Arithmetic(n, r);
    EndOnRings(w, n, queries, cap);
  }

  lemma Arithmetic(n: nat, r: nat)
    ensures 3 * n * (6 * r + 1) == 18 * n * r + 3 * n
  {
  }

  lemma EndOnRings(w: World, n: nat, queries: int, cap: nat)
    requires WorldInv(w, n, queries, cap)
    ensures Shaped(w, cap)
    ensures if Ended(w) then forall any :: In(w, any).history.got == In(w, any).history.put
            else CanGoOn(w, Server, queries, cap) || CanGoOn(w, Client, queries, cap)
  {
    hide WorldInv, CanGoOn, Ended;
    NeverStuck(w, n, queries, cap);
    if Ended(w) {
      forall any ensures In(w, any).history.got == In(w, any).history.put { EndMeans(w, n, queries, cap, any); }
    }
  }

  lemma AheadIsMore(w: World, n: nat, queries: int, cap: nat)
    requires WorldInv(w, n, queries, cap)
    ensures Ahead(w, Rounds(queries)) >= 3 * n
  {
    AtLeastOneLeft(w.p, n, queries, n);
    assert w.p.at[..n] == w.p.at;
  }
}
