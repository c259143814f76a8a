/** The request and answer protocol of QueueBenchmark (bench_queue.cpp, lines 707-837): a client keeps one query
    of each connection in flight, a server sends every query back, and both check the numbering. */
module QueueBenchmark {
  import opened Basics
  import opened Counting

  const SHIFT: nat := 0x100_0000

  // A value of type int holds the connection in its top eight bits and the query number below.
  function No(v: int): (no: int)
    ensures 0 <= no < SHIFT
  {
    v % SHIFT
  }

  // value >> 24, which keeps the sign
  function Co(v: int): int {
    v / SHIFT
  }

  function Message(co: nat, no: nat): int {
    co * SHIFT + no
  }

  lemma Decode(co: nat, no: nat)
    requires co < 128 && no < SHIFT
    ensures var v := Message(co, no); Co(v) == co && No(v) == no && Int32(v) == v
  {
  }

  // The numbers of connections the decoding can tell apart: 128 with a signed shift, 256 with the unsigned
  // shift of QueueBenchmark2.
  lemma DecodeSigned(co: nat, no: nat)
    requires co < 256 && no < SHIFT
    ensures Co(Int32(Message(co, no))) == co <==> co < 128
    ensures co >= 128 ==> Co(Int32(Message(co, no))) < 0
    ensures (Int32(Message(co, no)) % 0x1_0000_0000) / SHIFT == co
  {
  }

  // ---------- the two threads ----------

  datatype ServerPc = SGet | SGot(v: int) | SPut(v: int) | SDone | SBug
  datatype ClientPc = CInit(i: nat) | CGet | CGot(v: int) | CPut(v: int) | CDone | CBug

  // Where the query of a connection is.
  datatype Stage =
    | Unsent
    | ToServer(no: nat) | ServerGot(no: nat) | ServerPut(no: nat)
    | ToClient(no: nat) | ClientGot(no: nat) | ClientPut(no: nat)
    | Finished

  // serverQ and clientQ hold the values on their way to the server and to the client; `at` records where each
  // connection's query is and decides nothing.
  datatype State = State(serverQ: seq<int>, clientQ: seq<int>, serverPc: ServerPc, clientPc: ClientPc,
                         serverConn: seq<int>, clientConn: seq<int>, serverActive: int, clientActive: int,
                         at: seq<Stage>)

  function Init(n: nat): State {
    State([], [], SGet, CInit(0), seq(n, _ => 0), seq(n, _ => 0), n, n, seq(n, _ => Unsent))
  }

  function Place(at: seq<Stage>, co: int, stage: Stage): seq<Stage> {
    if 0 <= co < |at| then at[co := stage] else at
  }

  predicate CanServer(s: State) {
    match s.serverPc
    case SGet => s.serverQ != []
    case SGot(_) => true
    case SPut(_) => true
    case _ => false
  }

  // server_run: get, flush and check, answer
  function ServerStep(s: State, queries: int): State
    requires CanServer(s)
  {
    match s.serverPc
    case SGet =>
      var v := s.serverQ[0];
      s.(serverQ := s.serverQ[1..], serverPc := SGot(v), at := Place(s.at, Co(v), ServerGot(No(v))))
    case SGot(v) =>
      if Co(v) < 0 || Co(v) >= |s.serverConn| || No(v) != s.serverConn[Co(v)] then s.(serverPc := SBug)
      else s.(serverPc := SPut(v), serverConn := s.serverConn[Co(v) := s.serverConn[Co(v)] + 1],
              at := Place(s.at, Co(v), ServerPut(No(v))))
    case SPut(v) =>
      var active := if No(v) + 1 >= queries then s.serverActive - 1 else s.serverActive;
      s.(clientQ := s.clientQ + [v], serverActive := active, serverPc := if active > 0 then SGet else SDone,
         at := Place(s.at, Co(v), ToClient(No(v))))
  }

  predicate CanClient(s: State) {
    match s.clientPc
    case CInit(_) => true
    case CGet => s.clientQ != []
    case CGot(_) => true
    case CPut(_) => true
    case _ => false
  }

  // client_run: first one query for each connection; then get, flush and check, next query
  function ClientStep(s: State, queries: int): State
    requires CanClient(s)
  {
    match s.clientPc
    case CInit(i) =>
      s.(serverQ := s.serverQ + [Int32(i * SHIFT)],
         clientPc := if i + 1 < |s.clientConn| then CInit(i + 1) else CGet,
         at := Place(s.at, i, ToServer(0)))
    case CGet =>
      var v := s.clientQ[0];
      s.(clientQ := s.clientQ[1..], clientPc := CGot(v), at := Place(s.at, Co(v), ClientGot(No(v))))
    case CGot(v) =>
      if Co(v) < 0 || Co(v) >= |s.clientConn| || No(v) != s.clientConn[Co(v)] then s.(clientPc := CBug)
      else
        var s' := s.(clientConn := s.clientConn[Co(v) := s.clientConn[Co(v)] + 1]);
        if No(v) + 1 < queries then
          s'.(clientPc := CPut(Int32(v + 1)), at := Place(s.at, Co(v), ClientPut(No(v) + 1)))
        else
          s'.(clientActive := s.clientActive - 1, clientPc := if s.clientActive > 1 then CGet else CDone,
              at := Place(s.at, Co(v), Finished))
    case CPut(v) =>
      s.(serverQ := s.serverQ + [v], clientPc := CGet, at := Place(s.at, Co(v), ToServer(No(v))))
  }

  // ---------- the invariant ----------

  function Rounds(queries: int): (r: nat)
    ensures r >= 1 && r >= queries
  {
    if queries < 1 then 1 else queries
  }

  predicate OnWayToServer(x: Stage) { x.ToServer? }
  predicate OnWayToClient(x: Stage) { x.ToClient? }

  predicate ClientOpen(x: Stage) { !x.Finished? }

  // The server still expects a query of the connection.
  predicate ServerOpen(x: Stage, r: nat) {
    !x.Finished? && !((x.ToClient? || x.ClientGot?) && x.no + 1 >= r)
  }

  ghost function ServerOpenIn(r: nat): Stage -> bool {
    x => ServerOpen(x, r)
  }

  // How many queries of a connection the server and the client have counted.
  function ServerSeen(x: Stage, r: nat): nat {
    match x
    case Unsent => 0
    case ToServer(no) => no
    case ServerGot(no) => no
    case ServerPut(no) => no + 1
    case ToClient(no) => no + 1
    case ClientGot(no) => no + 1
    case ClientPut(no) => no
    case Finished => r
  }

  function ClientSeen(x: Stage, r: nat): nat {
    match x
    case Unsent => 0
    case Finished => r
    case _ => x.no
  }

  ghost predicate StageOk(s: State, r: nat, co: nat)
    requires co < |s.at|
  {
    var x := s.at[co];
    && (!x.Unsent? && !x.Finished? ==> x.no < r)
    && (x.Unsent? <==> s.clientPc.CInit? && co >= s.clientPc.i)
    && (x.ServerGot? ==> s.serverPc == SGot(Message(co, x.no)))
    && (x.ServerPut? ==> s.serverPc == SPut(Message(co, x.no)))
    && (x.ClientGot? ==> s.clientPc == CGot(Message(co, x.no)))
    && (x.ClientPut? ==> s.clientPc == CPut(Message(co, x.no)) && x.no > 0)
    && co < |s.serverConn| && s.serverConn[co] == ServerSeen(x, r)
    && co < |s.clientConn| && s.clientConn[co] == ClientSeen(x, r)
  }

  // A value on its way is the one query of its connection.
  ghost predicate InFlight(q: seq<int>, at: seq<Stage>, k: nat, toServer: bool)
    requires k < |q|
  {
    && 0 <= Co(q[k]) < |at| && at[Co(q[k])] == (if toServer then ToServer(No(q[k])) else ToClient(No(q[k])))
    && (forall j | 0 <= j < |q| && Co(q[j]) == Co(q[k]) :: j == k)
  }

  ghost predicate QueueOk(q: seq<int>, at: seq<Stage>, toServer: bool) {
    && (forall k | 0 <= k < |q| :: InFlight(q, at, k, toServer))
    && |q| == Count(at, if toServer then OnWayToServer else OnWayToClient)
  }

  ghost predicate HandsOk(s: State) {
    && (s.serverPc.SGot? ==> 0 <= Co(s.serverPc.v) < |s.at| && s.at[Co(s.serverPc.v)] == ServerGot(No(s.serverPc.v)))
    && (s.serverPc.SPut? ==> 0 <= Co(s.serverPc.v) < |s.at| && s.at[Co(s.serverPc.v)] == ServerPut(No(s.serverPc.v)))
    && (s.clientPc.CGot? ==> 0 <= Co(s.clientPc.v) < |s.at| && s.at[Co(s.clientPc.v)] == ClientGot(No(s.clientPc.v)))
    && (s.clientPc.CPut? ==> 0 <= Co(s.clientPc.v) < |s.at| && s.at[Co(s.clientPc.v)] == ClientPut(No(s.clientPc.v)))
    && (s.clientPc.CInit? ==> s.clientPc.i < |s.at|)
    && !s.serverPc.SBug? && !s.clientPc.CBug?
  }

  ghost predicate ActiveOk(s: State, r: nat) {
    && s.serverActive == Count(s.at, ServerOpenIn(r))
    && s.clientActive == Count(s.at, ClientOpen)
    && (s.serverPc.SDone? <==> s.serverActive == 0)
    && (s.clientPc.CDone? <==> s.clientActive == 0)
  }

  ghost predicate Inv(s: State, n: nat, queries: int) {
    && 1 <= n <= 128 && queries < SHIFT
    && |s.at| == |s.serverConn| == |s.clientConn| == n
    && HandsOk(s) && ActiveOk(s, Rounds(queries))
    && (forall co | 0 <= co < n :: StageOk(s, Rounds(queries), co))
    && QueueOk(s.serverQ, s.at, true) && QueueOk(s.clientQ, s.at, false)
  }

  lemma InitKeeps(n: nat, queries: int)
    requires 1 <= n <= 128 && queries < SHIFT
    ensures Inv(Init(n), n, queries)
  {
    var at, r := Init(n).at, Rounds(queries);
    CountNone(at, OnWayToServer);
    CountNone(at, OnWayToClient);
    CountAll(at, ServerOpenIn(r));
    CountAll(at, ClientOpen);
  }

  // ---------- every step keeps it ----------

  lemma Reassemble(v: int)
    ensures v == Co(v) * SHIFT + No(v)
  {
  }

  // A query elsewhere moves on.
  lemma MoveKeepsQueue(q: seq<int>, at: seq<Stage>, toServer: bool, co: nat, x: Stage)
    requires QueueOk(q, at, toServer) && co < |at|
    requires if toServer then !at[co].ToServer? && !x.ToServer? else !at[co].ToClient? && !x.ToClient?
    ensures QueueOk(q, at[co := x], toServer)
  {
    hide Count, Co, No;
    CountUpdate(at, co, x, OnWayToServer);
    CountUpdate(at, co, x, OnWayToClient);
    var at' := at[co := x];
    forall k | 0 <= k < |q| ensures InFlight(q, at', k, toServer) {
      assert InFlight(q, at, k, toServer);
    }
  }

  lemma PopKeepsQueue(q: seq<int>, at: seq<Stage>, toServer: bool, x: Stage)
    requires QueueOk(q, at, toServer) && q != [] && !x.ToServer? && !x.ToClient?
    ensures 0 <= Co(q[0]) < |at| && at[Co(q[0])] == (if toServer then ToServer(No(q[0])) else ToClient(No(q[0])))
    ensures QueueOk(q[1..], at[Co(q[0]) := x], toServer)
  {
    hide Count, Co, No;
    assert InFlight(q, at, 0, toServer);
    CountUpdate(at, Co(q[0]), x, OnWayToServer);
    CountUpdate(at, Co(q[0]), x, OnWayToClient);
    var q', at' := q[1..], at[Co(q[0]) := x];
    forall k | 0 <= k < |q'| ensures InFlight(q', at', k, toServer) {
      assert InFlight(q, at, k + 1, toServer);
    }
  }

  lemma PushKeepsQueue(q: seq<int>, at: seq<Stage>, toServer: bool, v: int)
    requires QueueOk(q, at, toServer) && 0 <= Co(v) < |at|
    requires if toServer then !at[Co(v)].ToServer? else !at[Co(v)].ToClient?
    ensures QueueOk(q + [v], at[Co(v) := if toServer then ToServer(No(v)) else ToClient(No(v))], toServer)
  {
    hide Count, Co, No;
    var x := if toServer then ToServer(No(v)) else ToClient(No(v));
    CountUpdate(at, Co(v), x, OnWayToServer);
    CountUpdate(at, Co(v), x, OnWayToClient);
    var q', at' := q + [v], at[Co(v) := x];
    forall k | 0 <= k < |q'| ensures InFlight(q', at', k, toServer) {
      if k < |q| { assert InFlight(q, at, k, toServer); }
      forall j | 0 <= j < |q| ensures Co(q[j]) != Co(v) {
        assert InFlight(q, at, j, toServer);
      }
    }
  }

  lemma MoveCounts(at: seq<Stage>, co: nat, x: Stage, r: nat)
    requires co < |at|
    ensures Count(at[co := x], ServerOpenIn(r)) ==
            Count(at, ServerOpenIn(r)) - (if ServerOpen(at[co], r) then 1 else 0) + (if ServerOpen(x, r) then 1 else 0)
    ensures Count(at[co := x], ClientOpen) ==
            Count(at, ClientOpen) - (if ClientOpen(at[co]) then 1 else 0) + (if ClientOpen(x) then 1 else 0)
  {
    hide Count;
    CountUpdate(at, co, x, ServerOpenIn(r));
    CountUpdate(at, co, x, ClientOpen);
  }

  lemma SomeOpen(at: seq<Stage>, co: nat, r: nat)
    requires co < |at|
    ensures ServerOpen(at[co], r) ==> Count(at, ServerOpenIn(r)) > 0
    ensures ClientOpen(at[co]) ==> Count(at, ClientOpen) > 0
  {
    hide Count;
    MoveCounts(at, co, Finished, r);
  }

  lemma ServerGetKeeps(s: State, n: nat, queries: int)
    requires Inv(s, n, queries) && s.serverPc.SGet? && CanServer(s)
    ensures Inv(ServerStep(s, queries), n, queries)
  {
    hide Count, Co, No, QueueOk, Int32;
    var v := s.serverQ[0];
    var x := ServerGot(No(v));
    PopKeepsQueue(s.serverQ, s.at, true, x);
    MoveKeepsQueue(s.clientQ, s.at, false, Co(v), x);
    MoveCounts(s.at, Co(v), x, Rounds(queries));
    Reassemble(v);
    var s' := ServerStep(s, queries);
    forall co | 0 <= co < n ensures StageOk(s', Rounds(queries), co) {
      assert StageOk(s, Rounds(queries), co);
    }
  }

  lemma ServerCheckKeeps(s: State, n: nat, queries: int)
    requires Inv(s, n, queries) && s.serverPc.SGot?
    ensures Inv(ServerStep(s, queries), n, queries)
  {
    hide Count, Co, No, QueueOk, Int32;
    var v := s.serverPc.v;
    var x := ServerPut(No(v));
    assert StageOk(s, Rounds(queries), Co(v));
    MoveKeepsQueue(s.serverQ, s.at, true, Co(v), x);
    MoveKeepsQueue(s.clientQ, s.at, false, Co(v), x);
    MoveCounts(s.at, Co(v), x, Rounds(queries));
    Reassemble(v);
    var s' := ServerStep(s, queries);
    forall co | 0 <= co < n ensures StageOk(s', Rounds(queries), co) {
      assert StageOk(s, Rounds(queries), co);
    }
  }

  lemma ServerPutKeeps(s: State, n: nat, queries: int)
    requires Inv(s, n, queries) && s.serverPc.SPut?
    ensures Inv(ServerStep(s, queries), n, queries)
  {
    hide Count, Co, No, QueueOk, Int32;
    var v := s.serverPc.v;
    var x := ToClient(No(v));
    assert StageOk(s, Rounds(queries), Co(v));
    MoveKeepsQueue(s.serverQ, s.at, true, Co(v), x);
    PushKeepsQueue(s.clientQ, s.at, false, v);
    MoveCounts(s.at, Co(v), x, Rounds(queries));
    SomeOpen(s.at, Co(v), Rounds(queries));
    Reassemble(v);
    var s' := ServerStep(s, queries);
    forall co | 0 <= co < n ensures StageOk(s', Rounds(queries), co) {
      assert StageOk(s, Rounds(queries), co);
    }
  }

  lemma ClientInitKeeps(s: State, n: nat, queries: int)
    requires Inv(s, n, queries) && s.clientPc.CInit?
    ensures Inv(ClientStep(s, queries), n, queries)
  {
    hide Count, Co, No, QueueOk, Int32;
    var i := s.clientPc.i;
    var v := Message(i, 0);
    Decode(i, 0);
    assert StageOk(s, Rounds(queries), i);
    PushKeepsQueue(s.serverQ, s.at, true, v);
    MoveKeepsQueue(s.clientQ, s.at, false, i, ToServer(0));
    MoveCounts(s.at, i, ToServer(0), Rounds(queries));
    SomeOpen(s.at, i, Rounds(queries));
    var s' := ClientStep(s, queries);
    forall co | 0 <= co < n ensures StageOk(s', Rounds(queries), co) {
      assert StageOk(s, Rounds(queries), co);
    }
  }

  lemma ClientGetKeeps(s: State, n: nat, queries: int)
    requires Inv(s, n, queries) && s.clientPc.CGet? && CanClient(s)
    ensures Inv(ClientStep(s, queries), n, queries)
  {
    hide Count, Co, No, QueueOk, Int32;
    var v := s.clientQ[0];
    var x := ClientGot(No(v));
    PopKeepsQueue(s.clientQ, s.at, false, x);
    MoveKeepsQueue(s.serverQ, s.at, true, Co(v), x);
    MoveCounts(s.at, Co(v), x, Rounds(queries));
    Reassemble(v);
    var s' := ClientStep(s, queries);
    forall co | 0 <= co < n ensures StageOk(s', Rounds(queries), co) {
      assert StageOk(s, Rounds(queries), co);
    }
  }

  lemma ClientCheckKeeps(s: State, n: nat, queries: int)
    requires Inv(s, n, queries) && s.clientPc.CGot?
    ensures Inv(ClientStep(s, queries), n, queries)
  {
    hide Count, Co, No, QueueOk, Int32;
    var v := s.clientPc.v;
    var x := if No(v) + 1 < queries then ClientPut(No(v) + 1) else Finished;
    assert StageOk(s, Rounds(queries), Co(v));
    MoveKeepsQueue(s.serverQ, s.at, true, Co(v), x);
    MoveKeepsQueue(s.clientQ, s.at, false, Co(v), x);
    MoveCounts(s.at, Co(v), x, Rounds(queries));
    SomeOpen(s.at, Co(v), Rounds(queries));
    Reassemble(v);
    if No(v) + 1 < queries { Decode(Co(v), No(v) + 1); }
    var s' := ClientStep(s, queries);
    forall co | 0 <= co < n ensures StageOk(s', Rounds(queries), co) {
      assert StageOk(s, Rounds(queries), co);
    }
  }

  lemma ClientPutKeeps(s: State, n: nat, queries: int)
    requires Inv(s, n, queries) && s.clientPc.CPut?
    ensures Inv(ClientStep(s, queries), n, queries)
  {
    hide Count, Co, No, QueueOk, Int32;
    var v := s.clientPc.v;
    var x := ToServer(No(v));
    assert StageOk(s, Rounds(queries), Co(v));
    PushKeepsQueue(s.serverQ, s.at, true, v);
    MoveKeepsQueue(s.clientQ, s.at, false, Co(v), x);
    MoveCounts(s.at, Co(v), x, Rounds(queries));
    SomeOpen(s.at, Co(v), Rounds(queries));
    Reassemble(v);
    var s' := ClientStep(s, queries);
    forall co | 0 <= co < n ensures StageOk(s', Rounds(queries), co) {
      assert StageOk(s, Rounds(queries), co);
    }
  }

  datatype Who = Server | Client

  predicate Can(s: State, who: Who) {
    if who.Server? then CanServer(s) else CanClient(s)
  }

  function Step(s: State, who: Who, queries: int): State
    requires Can(s, who)
  {
    if who.Server? then ServerStep(s, queries) else ClientStep(s, queries)
  }

  lemma StepKeeps(s: State, who: Who, n: nat, queries: int)
    requires Inv(s, n, queries) && Can(s, who)
    ensures Inv(Step(s, who, queries), n, queries)
  {
    hide Inv;
    if who.Server? {
      match s.serverPc
      case SGet => ServerGetKeeps(s, n, queries);
      case SGot(_) => ServerCheckKeeps(s, n, queries);
      case SPut(_) => ServerPutKeeps(s, n, queries);
    } else {
      match s.clientPc
      case CInit(_) => ClientInitKeeps(s, n, queries);
      case CGet => ClientGetKeeps(s, n, queries);
      case CGot(_) => ClientCheckKeeps(s, n, queries);
      case CPut(_) => ClientPutKeeps(s, n, queries);
    }
  }

  // ---------- how long a run takes ----------

  // The steps that have still to be made for the query of a connection, and one more.
  function Left(x: Stage, r: nat): int {
    match x
    case Unsent => 6 * r + 1
    case ToServer(no) => 6 * (r - no)
    case ServerGot(no) => 6 * (r - no) - 1
    case ServerPut(no) => 6 * (r - no) - 2
    case ToClient(no) => 6 * (r - no) - 3
    case ClientGot(no) => 6 * (r - no) - 4
    case ClientPut(no) => 6 * (r - no) + 1
    case Finished => 1
  }

  function TotalLeft(at: seq<Stage>, r: nat): int {
    if at == [] then 0 else TotalLeft(at[..|at| - 1], r) + Left(at[|at| - 1], r)
  }

  lemma {:induction false} TotalLeftMoves(at: seq<Stage>, co: nat, x: Stage, r: nat)
    requires co < |at|
    ensures TotalLeft(at[co := x], r) == TotalLeft(at, r) - Left(at[co], r) + Left(x, r)
  {
    var n := |at| - 1;
    if co < n {
      TotalLeftMoves(at[..n], co, x, r);
      assert at[co := x][..n] == at[..n][co := x];
    } else {
      assert at[co := x][..n] == at[..n];
    }
  }

  lemma {:induction false} TotalLeftOf(at: seq<Stage>, x: Stage, r: nat)
    requires forall co | 0 <= co < |at| :: at[co] == x
    ensures TotalLeft(at, r) == |at| * Left(x, r)
  {
    if at != [] {
      TotalLeftOf(at[..|at| - 1], x, r);
      assert |at| * Left(x, r) == (|at| - 1) * Left(x, r) + Left(x, r);
    }
  }

  // Every step, of either thread, moves one query one step on.
  lemma StepCounts(s: State, who: Who, n: nat, queries: int)
    requires Inv(s, n, queries) && Can(s, who)
    ensures TotalLeft(Step(s, who, queries).at, Rounds(queries)) == TotalLeft(s.at, Rounds(queries)) - 1
  {
    hide Count, Co, No, Int32, TotalLeft, ActiveOk;
    var r := Rounds(queries);
    var co, x := Moved(s, who, n, queries);
    TotalLeftMoves(s.at, co, x, r);
  }

  lemma Moved(s: State, who: Who, n: nat, queries: int) returns (co: nat, x: Stage)
    requires Inv(s, n, queries) && Can(s, who)
    ensures co < n && Step(s, who, queries).at == s.at[co := x] && Left(x, Rounds(queries)) == Left(s.at[co], Rounds(queries)) - 1
  {
    hide Count, Co, No, Int32, ActiveOk;
    var s' := Step(s, who, queries);
    var v := if who.Server? then (match s.serverPc case SGet => s.serverQ[0] case SGot(v) => v case SPut(v) => v)
             else (match s.clientPc case CInit(i) => Message(i, 0) case CGet => s.clientQ[0] case CGot(v) => v case CPut(v) => v);
    if !who.Server? && s.clientPc.CInit? { Decode(s.clientPc.i, 0); }
    if who.Server? && s.serverPc.SGet? { assert InFlight(s.serverQ, s.at, 0, true); }
    if !who.Server? && s.clientPc.CGet? { assert InFlight(s.clientQ, s.at, 0, false); }
    co := Co(v);
    assert StageOk(s, Rounds(queries), co);
    x := s'.at[co];
  }

  // ---------- every run ----------

  ghost predicate Behavior(states: seq<State>, who: seq<Who>, n: nat, queries: int) {
    && |states| == |who| + 1 && states[0] == Init(n)
    && (forall i | 0 <= i < |who| :: Can(states[i], who[i]) && states[i + 1] == Step(states[i], who[i], queries))
  }

  lemma {:induction false} BehaviorKeeps(states: seq<State>, who: seq<Who>, n: nat, queries: int, i: nat)
    requires 1 <= n <= 128 && queries < SHIFT && Behavior(states, who, n, queries) && i < |states|
    ensures Inv(states[i], n, queries) && TotalLeft(states[i].at, Rounds(queries)) == n * (6 * Rounds(queries) + 1) - i
  {
    hide Inv, Step, TotalLeft;
    if i == 0 {
      InitKeeps(n, queries);
      TotalLeftOf(Init(n).at, Unsent, Rounds(queries));
    } else {
      BehaviorKeeps(states, who, n, queries, i - 1);
      StepKeeps(states[i - 1], who[i - 1], n, queries);
      StepCounts(states[i - 1], who[i - 1], n, queries);
    }
  }

  // No run reaches a "BUG" branch.
  lemma NoBug(states: seq<State>, who: seq<Who>, n: nat, queries: int, i: nat)
    requires 1 <= n <= 128 && queries < SHIFT && Behavior(states, who, n, queries) && i < |states|
    ensures !states[i].serverPc.SBug? && !states[i].clientPc.CBug?
  {
    BehaviorKeeps(states, who, n, queries, i);
  }

  // ---------- more connections ----------

  lemma Extend(states: seq<State>, who: seq<Who>, n: nat, queries: int, w: Who) returns (states': seq<State>, who': seq<Who>)
    requires Behavior(states, who, n, queries) && Can(states[|who|], w)
    ensures Behavior(states', who', n, queries) && states'[|who'|] == Step(states[|who|], w, queries)
  {
    hide Step, Can;
    states', who' := states + [Step(states[|who|], w, queries)], who + [w];
  }

  ghost function FirstQueries(from: nat, to: nat): seq<int>
    requires from <= to
  {
    seq(to - from, i => Int32((from + i) * SHIFT))
  }

  // The client has sent the first m queries and the server has not moved.
  lemma {:induction false} Sent(n: nat, queries: int, m: nat) returns (states: seq<State>, who: seq<Who>)
    requires m <= n
    ensures Behavior(states, who, n, queries)
    ensures var s := states[|who|];
            && s.serverPc == SGet && s.serverQ == FirstQueries(0, m) && (m < n ==> s.clientPc == CInit(m))
            && s.serverConn == seq(n, _ => 0) && s.serverActive == n && |s.clientConn| == n
  {
    hide Int32;
    if m == 0 {
      states, who := [Init(n)], [];
    } else {
      states, who := Sent(n, queries, m - 1);
      states, who := Extend(states, who, n, queries, Client);
    }
  }

  // The server has answered the first k of 129 queries.
  lemma {:induction false} Served(n: nat, queries: int, k: nat) returns (states: seq<State>, who: seq<Who>)
    requires n >= 129 && k <= 128
    ensures Behavior(states, who, n, queries)
    ensures var s := states[|who|];
            && s.serverPc == SGet && s.serverQ == FirstQueries(k, 129) && s.serverActive >= n - k
            && |s.serverConn| == n && forall co | k <= co < n :: s.serverConn[co] == 0
  {
    if k == 0 {
      states, who := Sent(n, queries, 129);
    } else {
      states, who := Served(n, queries, k - 1);
      ghost var s := states[|who|];
      Decode(k - 1, 0);
      ServesOne(s, queries, k - 1);
      states, who := Extend(states, who, n, queries, Server);
      states, who := Extend(states, who, n, queries, Server);
      states, who := Extend(states, who, n, queries, Server);
    }
  }

  lemma ServesOne(s: State, queries: int, k: nat)
    requires k < 128 && |s.serverConn| >= 129 && s.serverPc == SGet && s.serverQ == FirstQueries(k, 129)
    requires s.serverActive >= |s.serverConn| - k && forall co | k <= co < |s.serverConn| :: s.serverConn[co] == 0
    ensures CanServer(s)
    ensures var s1 := ServerStep(s, queries);
            && CanServer(s1)
            && var s2 := ServerStep(s1, queries);
               && CanServer(s2)
               && var s3 := ServerStep(s2, queries);
                  && s3.serverPc == SGet && s3.serverQ == FirstQueries(k + 1, 129)
                  && s3.serverActive >= |s.serverConn| - k - 1
                  && s3.serverConn == s.serverConn[k := 1]
  {
    Decode(k, 0);
    assert s.serverQ[0] == Message(k, 0);
    assert s.serverQ[1..] == FirstQueries(k + 1, 129);
  }

  // With more than 128 connections some run ends in a "BUG" branch, so NoBug holds for up to 128 and no more. As
  // everywhere, there are fewer than 2^24 queries: the client exits with "Too big queries_n" otherwise.
  lemma BugReached(n: nat, queries: int) returns (states: seq<State>, who: seq<Who>)
    requires n >= 129 && queries < SHIFT
    ensures Behavior(states, who, n, queries) && states[|who|].serverPc.SBug?
  {
    states, who := Served(n, queries, 128);
    DecodeSigned(128, 0);
    assert FirstQueries(128, 129)[0] == Int32(Message(128, 0));
    states, who := Extend(states, who, n, queries, Server);
    states, who := Extend(states, who, n, queries, Server);
  }

  ghost predicate Over(s: State) {
    s.serverPc.SDone? && s.clientPc.CDone?
  }

  // A state in which neither thread can move is one in which both have finished.
  lemma NoDeadlock(s: State, n: nat, queries: int)
    requires Inv(s, n, queries)
    ensures CanServer(s) || CanClient(s) || Over(s)
  {
    hide Count, Co, No, Int32, QueueOk;
    var r := Rounds(queries);
    if !CanServer(s) && !CanClient(s) {
      forall co | 0 <= co < n ensures s.at[co].Finished? {
        assert StageOk(s, r, co);
        SomeOpen(s.at, co, r);
        if s.at[co].ToServer? { QueuedIsThere(s.serverQ, s.at, true, co); }
        if s.at[co].ToClient? { QueuedIsThere(s.clientQ, s.at, false, co); }
      }
      CountNone(s.at, ServerOpenIn(r));
      CountNone(s.at, ClientOpen);
    }
  }

  // A stage that says a query is queued means that the queue is not empty.
  lemma QueuedIsThere(q: seq<int>, at: seq<Stage>, toServer: bool, co: nat)
    requires QueueOk(q, at, toServer) && co < |at| && if toServer then at[co].ToServer? else at[co].ToClient?
    ensures q != []
  {
    hide Count;
    CountUpdate(at, co, Finished, OnWayToServer);
    CountUpdate(at, co, Finished, OnWayToClient);
  }

  // When both threads have finished, both queues are empty and every connection had all its rounds.
  lemma OverMeans(s: State, n: nat, queries: int)
    requires Inv(s, n, queries) && Over(s)
    ensures s.serverQ == [] && s.clientQ == []
    ensures forall co | 0 <= co < n :: s.at[co].Finished? && s.serverConn[co] == s.clientConn[co] == Rounds(queries)
  {
    hide Count, Co, No, Int32;
    var r := Rounds(queries);
    forall co | 0 <= co < n ensures s.at[co].Finished? && s.serverConn[co] == s.clientConn[co] == r {
      assert StageOk(s, r, co);
      SomeOpen(s.at, co, r);
    }
    CountNone(s.at, OnWayToServer);
    CountNone(s.at, OnWayToClient);
  }

  lemma HasAll(s: State, n: nat, queries: int)
    requires Inv(s, n, queries)
    ensures |s.at| == |s.serverConn| == |s.clientConn| == n && s.at[..n] == s.at
  {
  }

  lemma SixPerRound(n: nat, r: nat)
    ensures n * (6 * r + 1) == 6 * n * r + n
  {
  }

  // Every run that cannot be continued ends that way, after exactly six steps per round and connection.
  lemma RunEnds(states: seq<State>, who: seq<Who>, n: nat, queries: int)
    requires 1 <= n <= 128 && queries < SHIFT && Behavior(states, who, n, queries)
    ensures |who| <= 6 * n * Rounds(queries)
    ensures var s := states[|who|];
            !CanServer(s) && !CanClient(s) ==>
            && |who| == 6 * n * Rounds(queries) && Over(s) && s.serverQ == [] && s.clientQ == []
            && (forall co | 0 <= co < n ::
                  co < |s.serverConn| && co < |s.clientConn| && s.serverConn[co] == s.clientConn[co] == Rounds(queries))
  {
    hide TotalLeft, Left, Step, Inv, CanServer, CanClient;
    var s, r := states[|who|], Rounds(queries);
    BehaviorKeeps(states, who, n, queries, |who|);
    AtLeastOneLeft(s, n, queries, n);
    HasAll(s, n, queries);
    SixPerRound(n, r);
    if !CanServer(s) && !CanClient(s) {
      NoDeadlock(s, n, queries);
      OverMeans(s, n, queries);
      TotalLeftOf(s.at, Finished, r);
      LeftFinished(r);
    }
  }

  lemma LeftFinished(r: nat)
    ensures Left(Finished, r) == 1
  {
  }

  lemma {:induction false} AtLeastOneLeft(s: State, n: nat, queries: int, k: nat)
    requires Inv(s, n, queries) && k <= n
    ensures TotalLeft(s.at[..k], Rounds(queries)) >= k
  {
    hide Count, Co, No, Int32, QueueOk, ActiveOk, HandsOk;
    if k > 0 {
      AtLeastOneLeft(s, n, queries, k - 1);
      assert s.at[..k][..k - 1] == s.at[..k - 1];
      assert StageOk(s, Rounds(queries), k - 1);
    }
  }

  // ---------- over ring buffers ----------

  predicate AtServer(x: Stage) { x.ToServer? || x.ServerGot? }
  predicate AtClient(x: Stage) { x.ToClient? || x.ClientGot? }

  lemma {:induction false} CountSum(at: seq<Stage>, n: nat)
    requires n <= |at|
    ensures Count(at[..n], AtServer) >= Count(at[..n], OnWayToServer)
    ensures (exists co | 0 <= co < n :: at[co].ServerGot?) ==> Count(at[..n], AtServer) > Count(at[..n], OnWayToServer)
    ensures Count(at[..n], AtClient) >= Count(at[..n], OnWayToClient)
    ensures (exists co | 0 <= co < n :: at[co].ClientGot?) ==> Count(at[..n], AtClient) > Count(at[..n], OnWayToClient)
  {
    if n > 0 {
      CountSum(at, n - 1);
      assert at[..n][..n - 1] == at[..n - 1];
    }
  }

  // When a thread puts a value, fewer values than there are connections are queued or taken but not yet freed.
  lemma PutHasRoom(s: State, n: nat, queries: int)
    requires Inv(s, n, queries)
    ensures s.clientPc.CInit? || s.clientPc.CPut? ==> |s.serverQ| + (if s.serverPc.SGot? then 1 else 0) < n
    ensures s.serverPc.SPut? ==> |s.clientQ| + (if s.clientPc.CGot? then 1 else 0) < n
  {
    hide Count, Co, No, Int32, ActiveOk;
    assert s.at[..n] == s.at;
    CountSum(s.at, n);
    if s.clientPc.CInit? || s.clientPc.CPut? {
      var co := if s.clientPc.CInit? then s.clientPc.i else Co(s.clientPc.v);
      assert StageOk(s, Rounds(queries), co);
      CountUpdate(s.at, co, ToServer(0), AtServer);
    }
    if s.serverPc.SPut? {
      CountUpdate(s.at, Co(s.serverPc.v), ToClient(0), AtClient);
    }
  }
}
