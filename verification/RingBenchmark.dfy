/** The token that goes round the ring of threads (bench_queue.cpp, lines 839-903). */
module RingBenchmark {
  import opened Modular

  datatype Pc = Waiting | Holding(value: int) | Exited

  datatype State = State(queues: seq<seq<int>>, pcs: seq<Pc>)

  // Thread t can move: it has taken a value, or it waits and there is something in its queue.
  predicate Can(s: State, t: nat) {
    t < |s.pcs| == |s.queues| && (s.pcs[t].Holding? || (s.pcs[t].Waiting? && s.queues[t] != []))
  }

  // Takes a value, or passes on one less and goes round again unless the value was smaller than the ring.
  function Step(s: State, t: nat): State
    requires Can(s, t)
  {
    var qn := |s.pcs|;
    if s.pcs[t].Waiting? then
      State(s.queues[t := s.queues[t][1..]], s.pcs[t := Holding(s.queues[t][0])])
    else
      var v, next := s.pcs[t].value, (t + 1) % qn;
      State(s.queues[next := s.queues[next] + [v - 1]], s.pcs[t := if v >= qn then Waiting else Exited])
  }

  function Init(n: int, qn: nat): State
    requires qn > 0
  {
    State(seq(qn, t => if t == 0 then [n] else []), seq(qn, _ => Waiting))
  }

  // ---------- the only run ----------

  // The receipts after which threads leave the ring: number first and those after it.
  function First(n: int, qn: nat): nat {
    if n - qn + 1 > 0 then n - qn + 1 else 0
  }

  function Receipts(n: int, qn: nat): nat {
    First(n, qn) + qn
  }

  // Thread t has received a value smaller than the ring among the first k receipts.
  ghost predicate Left(n: int, qn: nat, k: nat, t: nat)
    requires qn > 0
  {
    exists j | First(n, qn) <= j < k :: j % qn == t
  }

  // Receipt number k, of value n - k, is by thread k % qn. There is one token, in that thread's queue or in its
  // hands.
  ghost function At(n: int, qn: nat, k: nat, held: bool): (s: State)
    requires qn > 0
    ensures |s.queues| == |s.pcs| == qn
  {
    State(seq(qn, t => if t == k % qn && !held then [n - k] else []),
          seq(qn, t requires 0 <= t => if t == k % qn && held then Holding(n - k)
                                       else if Left(n, qn, k, t) then Exited else Waiting))
  }

  // The state after i steps
  ghost function Expected(n: int, qn: nat, i: nat): (s: State)
    requires qn > 0
    ensures |s.queues| == |s.pcs| == qn
  {
    At(n, qn, i / 2, i % 2 == 1)
  }

  // Until the last receipt, the thread whose turn it is has not left.
  lemma StillThere(n: int, qn: nat, k: nat)
    requires qn > 0 && k < Receipts(n, qn)
    ensures !Left(n, qn, k, k % qn)
  {
    forall j | First(n, qn) <= j < k ensures j % qn != k % qn {
      if j % qn == k % qn { ModClose(j, k, qn); }
    }
  }

  // After it, every thread has left.
  lemma AllLeft(n: int, qn: nat, t: nat)
    requires qn > 0 && t < qn
    ensures Left(n, qn, Receipts(n, qn), t)
  {
    var f := First(n, qn);
    var d := (t - f) % qn;
    ModAdd(t - f, f, qn);
    ModSmall(t, qn);
    assert (f + d) % qn == t;
  }

  lemma LeftGrows(n: int, qn: nat, k: nat, t: nat)
    requires qn > 0
    ensures Left(n, qn, k + 1, t) <==> Left(n, qn, k, t) || (k >= First(n, qn) && k % qn == t)
  {
    if Left(n, qn, k, t) {
      var j :| First(n, qn) <= j < k && j % qn == t;
      assert First(n, qn) <= j < k + 1;
    }
  }

  lemma TakeStep(n: int, qn: nat, k: nat)
    requires qn > 0 && k < Receipts(n, qn)
    ensures var s, t := At(n, qn, k, false), k % qn;
            Can(s, t) && s.pcs[t].Waiting? && |s.queues[t]| == 1 && Step(s, t) == At(n, qn, k, true)
  {
    StillThere(n, qn, k);
    hide Left;
    var s, t, s' := At(n, qn, k, false), k % qn, At(n, qn, k, true);
    assert s.queues[t][1..] == [];
    assert Step(s, t).queues == s'.queues;
    assert Step(s, t).pcs == s'.pcs;
  }

  lemma PassStep(n: int, qn: nat, k: nat)
    requires qn > 0 && k < Receipts(n, qn)
    ensures var s, t := At(n, qn, k, true), k % qn; Can(s, t) && Step(s, t) == At(n, qn, k + 1, false)
  {
    StillThere(n, qn, k);
    NextTurn(k, qn);
    forall u: nat ensures Left(n, qn, k + 1, u) <==> Left(n, qn, k, u) || (k >= First(n, qn) && k % qn == u) {
      LeftGrows(n, qn, k, u);
    }
    hide Left;
    var s, t, s' := At(n, qn, k, true), k % qn, At(n, qn, k + 1, false);
    assert [] + [n - k - 1] == [n - (k + 1)];
    assert Step(s, t).queues == s'.queues;
    assert Step(s, t).pcs == s'.pcs;
  }

  lemma OnlyOneCan(n: int, qn: nat, k: nat, held: bool, t: nat)
    requires qn > 0 && Can(At(n, qn, k, held), t)
    ensures t == k % qn
  {
    hide Left;
  }

  // Before the end exactly one thread can move, and it moves as expected; a thread that waits finds exactly one
  // value, as CHECK(cnt == 1) demands.
  lemma ExpectedStep(n: int, qn: nat, i: nat, t: nat)
    requires qn > 0 && i < 2 * Receipts(n, qn)
    ensures var s := Expected(n, qn, i);
            && (Can(s, t) <==> t == (i / 2) % qn)
            && (Can(s, t) ==> Step(s, t) == Expected(n, qn, i + 1) && (s.pcs[t].Waiting? ==> |s.queues[t]| == 1))
  {
    hide At, Step, Can;
    var k, held := i / 2, i % 2 == 1;
    if Can(At(n, qn, k, held), t) { OnlyOneCan(n, qn, k, held, t); }
    if held {
      PassStep(n, qn, k);
      HeldIsNotWaiting(n, qn, k);
    } else {
      TakeStep(n, qn, k);
    }
  }

  lemma HeldIsNotWaiting(n: int, qn: nat, k: nat)
    requires qn > 0
    ensures At(n, qn, k, true).pcs[k % qn].Holding?
  {
  }

  lemma NextTurn(k: nat, qn: nat)
    requires qn > 0
    ensures (k % qn + 1) % qn == (k + 1) % qn
  {
    ModAdd(k, 1, qn);
  }

  lemma ExpectedEnd(n: int, qn: nat, t: nat)
    requires qn > 0
    ensures var s := Expected(n, qn, 2 * Receipts(n, qn));
            !Can(s, t) && (t < qn ==> s.pcs[t].Exited?) && s.queues[Receipts(n, qn) % qn] == [n - Receipts(n, qn)]
  {
    if t < qn { AllLeft(n, qn, t); }
  }

  ghost predicate Behavior(states: seq<State>, threads: seq<nat>, n: int, qn: nat)
    requires qn > 0
  {
    && |states| == |threads| + 1 && states[0] == Init(n, qn)
    && (forall i | 0 <= i < |threads| :: Can(states[i], threads[i]) && states[i + 1] == Step(states[i], threads[i]))
  }

  // Every run is the expected one.
  lemma {:induction false} RunIsExpected(states: seq<State>, threads: seq<nat>, n: int, qn: nat, i: nat)
    requires qn > 0 && Behavior(states, threads, n, qn) && i < |states|
    ensures i <= 2 * Receipts(n, qn) && states[i] == Expected(n, qn, i)
    ensures i > 0 ==> threads[i - 1] == ((i - 1) / 2) % qn
  {
    hide Step, Expected, Can;
    if i == 0 {
      ExpectedStart(n, qn);
    } else {
      RunIsExpected(states, threads, n, qn, i - 1);
      if i - 1 == 2 * Receipts(n, qn) {
        ExpectedEnd(n, qn, threads[i - 1]);
      } else {
        ExpectedStep(n, qn, i - 1, threads[i - 1]);
      }
    }
  }

  lemma ExpectedStart(n: int, qn: nat)
    requires qn > 0
    ensures Init(n, qn) == Expected(n, qn, 0)
  {
    ModSmall(0, qn);
    assert Init(n, qn).queues == Expected(n, qn, 0).queues;
    assert Init(n, qn).pcs == Expected(n, qn, 0).pcs;
  }

  // A run that cannot go on has seen every thread leave, once, and one value left unread: -1 for every start value
  // of at least qn - 1.
  lemma RunEnds(states: seq<State>, threads: seq<nat>, n: int, qn: nat)
    requires qn > 0 && Behavior(states, threads, n, qn)
    requires forall t: nat :: !Can(states[|threads|], t)
    ensures |threads| == 2 * Receipts(n, qn)
    ensures var s := states[|threads|];
            && (forall t | 0 <= t < qn :: t < |s.pcs| && s.pcs[t].Exited?)
            && Receipts(n, qn) % qn < |s.queues| && s.queues[Receipts(n, qn) % qn] == [n - Receipts(n, qn)]
            && (n - Receipts(n, qn) == -1 <==> n >= qn - 1)
  {
    hide Step, Can;
    var i := |threads|;
    RunIsExpected(states, threads, n, qn, i);
    if i < 2 * Receipts(n, qn) {
      ExpectedStep(n, qn, i, (i / 2) % qn);
    } else {
      forall t: nat ensures t < qn ==> Expected(n, qn, i).pcs[t].Exited? { ExpectedEnd(n, qn, t); }
      ExpectedEnd(n, qn, 0);
    }
  }
}
