/** The sleep and wake-up handshake of BufferedFdQueue (bench_queue.cpp, lines 339-436) on a machine where each
    thread's stores pass through a first-in first-out store buffer that __sync_synchronize drains.

    Indices are unbounded counts here; BufferQueue shows that wrapping them does not change what
    update_reader() returns. */
module WakeupProtocol {

  datatype WriterPc =
    | WIdle    // between puts
    | WFence   // writer.i stored, about to synchronize
    | WTest    // about to load wait_flag
    | WSignal  // about to write to the eventfd

  datatype ReaderPc =
    | RIdle    // not waiting
    | RSpin    // waiting without sleeping: about to load writer.i
    | RRaise   // about to store 1 to wait_flag
    | RFence   // about to synchronize
    | RLook    // about to load writer.i
    | RRead    // in read() on the eventfd, asleep while its count is 0
    | RLower   // about to store 0 to wait_flag

  // published, flag and count are writer.i, wait_flag and the eventfd as memory has them; got values were taken
  // and `seen` is writer.i as last loaded by the reader.
  datatype State = State(published: nat, flag: bool, count: nat, writerPc: WriterPc, writerBuffer: seq<nat>,
                         readerPc: ReaderPc, readerBuffer: seq<bool>, seen: nat, got: nat)

  const INIT: State := State(0, false, 0, WIdle, [], RIdle, [], 0, 0)

  datatype Action =
    | Flush(total: nat)  // the writer publishes everything put so far
    | WriterStep
    | WriterDrain
    | Take               // the reader takes a value it has seen
    | Wait               // the reader finds no value it has seen and starts to wait
    | GiveUp             // backoff.next() says to stop spinning
    | ReaderStep
    | ReaderDrain

  // The last value the writer stored, whether it has reached memory or not.
  function Total(s: State): nat {
    if s.writerBuffer == [] then s.published else s.writerBuffer[|s.writerBuffer| - 1]
  }

  predicate Can(s: State, a: Action) {
    match a
    case Flush(total) => s.writerPc.WIdle? && total >= Total(s)
    case WriterStep => !s.writerPc.WIdle? && (s.writerPc.WFence? ==> s.writerBuffer == [])
    case WriterDrain => s.writerBuffer != []
    case Take => s.readerPc.RIdle? && s.got < s.seen
    case Wait => s.readerPc.RIdle? && s.got == s.seen
    case GiveUp => s.readerPc.RSpin?
    case ReaderStep =>
      && !s.readerPc.RIdle?
      && (s.readerPc.RFence? ==> s.readerBuffer == [])
      && (s.readerPc.RRead? ==> s.count > 0)
    case ReaderDrain => s.readerBuffer != []
  }

  function Do(s: State, a: Action): State
    requires Can(s, a)
  {
    match a
    case Flush(total) => s.(writerBuffer := s.writerBuffer + [total], writerPc := WFence)
    case WriterStep =>
      (match s.writerPc
       case WFence => s.(writerPc := WTest)
       case WTest => s.(writerPc := if s.flag then WSignal else WIdle)
       case WSignal => s.(count := s.count + 1, writerPc := WIdle))
    case WriterDrain => s.(published := s.writerBuffer[0], writerBuffer := s.writerBuffer[1..])
    case Take => s.(got := s.got + 1)
    case Wait => s.(readerPc := RSpin)
    case GiveUp => s.(readerPc := RRaise)
    case ReaderStep =>
      (match s.readerPc
       case RSpin => s.(seen := s.published, readerPc := if s.published > s.got then RIdle else RSpin)
       case RRaise => s.(readerBuffer := s.readerBuffer + [true], readerPc := RFence)
       case RFence => s.(readerPc := RLook)
       case RLook => s.(seen := s.published, readerPc := if s.published > s.got then RLower else RRead)
       case RRead => s.(count := 0, readerPc := RFence)
       case RLower => s.(readerBuffer := s.readerBuffer + [false], readerPc := RIdle))
    case ReaderDrain => s.(flag := s.readerBuffer[0], readerBuffer := s.readerBuffer[1..])
  }

  // ---------- the invariant ----------

  function LastFlag(s: State): bool {
    if s.readerBuffer == [] then s.flag else s.readerBuffer[|s.readerBuffer| - 1]
  }

  // Asleep: blocked in read() on an eventfd whose count is 0.
  predicate Asleep(s: State) {
    s.readerPc.RRead? && s.count == 0
  }

  // The writer has still to write to the eventfd, or to find out that it has to.
  predicate WriterBusy(s: State) {
    !s.writerPc.WIdle?
  }

  ghost predicate Inv(s: State) {
    && |s.writerBuffer| <= 1 && (s.writerBuffer != [] ==> s.writerPc.WFence? && s.published <= s.writerBuffer[0])
    && s.got <= s.seen <= s.published
    && (s.readerPc.RFence? ==> LastFlag(s))
    && (s.readerPc.RLook? || s.readerPc.RRead? ==> s.readerBuffer == [] && s.flag)
    && (!s.readerPc.RIdle? && !s.readerPc.RLower? ==> s.seen == s.got)
    && (s.readerPc.RRead? && Total(s) > s.got ==> s.count > 0 || WriterBusy(s))
  }

  lemma StepKeeps(s: State, a: Action)
    requires Inv(s) && Can(s, a)
    ensures Inv(Do(s, a))
  {
    hide Inv, Do, Can;
    match a
    case Flush(_) => WriterKeeps(s, a);
    case WriterStep => WriterKeeps(s, a);
    case WriterDrain => WriterKeeps(s, a);
    case ReaderStep => ReaderStepKeeps(s);
    case _ => ReaderKeeps(s, a);
  }

  lemma WriterKeeps(s: State, a: Action)
    requires Inv(s) && Can(s, a) && (a.Flush? || a.WriterStep? || a.WriterDrain?)
    ensures Inv(Do(s, a))
  {
  }

  lemma ReaderStepKeeps(s: State)
    requires Inv(s) && Can(s, ReaderStep)
    ensures Inv(Do(s, ReaderStep))
  {
  }

  lemma ReaderKeeps(s: State, a: Action)
    requires Inv(s) && Can(s, a) && (a.Take? || a.Wait? || a.GiveUp? || a.ReaderDrain?)
    ensures Inv(Do(s, a))
  {
  }

  ghost predicate Behavior(states: seq<State>, actions: seq<Action>) {
    && |states| == |actions| + 1 && states[0] == INIT
    && (forall i | 0 <= i < |actions| :: Can(states[i], actions[i]) && states[i + 1] == Do(states[i], actions[i]))
  }

  lemma {:induction false} BehaviorKeeps(states: seq<State>, actions: seq<Action>, i: nat)
    requires Behavior(states, actions) && i < |states|
    ensures Inv(states[i])
  {
    if i > 0 {
      BehaviorKeeps(states, actions, i - 1);
      StepKeeps(states[i - 1], actions[i - 1]);
    }
  }

  // ---------- no lost wake-up ----------

  // Steps left until the eventfd is written.
  function Distance(s: State): nat {
    |s.writerBuffer| +
    match s.writerPc
    case WIdle => 0
    case WFence => 3
    case WTest => 2
    case WSignal => 1
  }

  // While the reader sleeps with a value to take, something can happen, and whatever happens brings it nearer.
  lemma WakeupComes(s: State)
    requires Inv(s) && Asleep(s) && Total(s) > s.got
    ensures 1 <= Distance(s) <= 4 && (Can(s, WriterStep) || Can(s, WriterDrain))
    ensures forall a | Can(s, a) ::
              var s' := Do(s, a);
              Inv(s') && s'.got == s.got && Total(s') == Total(s)
              && (if s'.count > 0 then Distance(s) == 1 else Asleep(s') && Distance(s') == Distance(s) - 1)
  {
    forall a | Can(s, a)
      ensures var s' := Do(s, a);
              Inv(s') && s'.got == s.got && Total(s') == Total(s)
              && (if s'.count > 0 then Distance(s) == 1 else Asleep(s') && Distance(s') == Distance(s) - 1)
    {
      StepKeeps(s, a);
    }
  }

  lemma {:induction false} WrittenInTime(states: seq<State>, actions: seq<Action>, i: nat)
    requires Behavior(states, actions) && i < |states|
    requires Asleep(states[i]) && Total(states[i]) > states[i].got
    ensures 1 <= Distance(states[i]) <= 4
    ensures i + Distance(states[i]) < |states| ==> states[i + Distance(states[i])].count > 0
    decreases |states| - i
  {
    hide Inv, Do, Can;
    BehaviorKeeps(states, actions, i);
    WakeupComes(states[i]);
    if i < |actions| && states[i + 1].count == 0 {
      WrittenInTime(states, actions, i + 1);
    }
  }

  // Whenever the reader sleeps in a run although a value it has not taken was flushed, the writer is about to write to
  // the eventfd: after at most four steps, whichever they are, it has.
  lemma NoLostWakeup(states: seq<State>, actions: seq<Action>, i: nat)
    requires Behavior(states, actions) && i < |states|
    ensures Asleep(states[i]) && Total(states[i]) > states[i].got ==>
              && WriterBusy(states[i]) && 1 <= Distance(states[i]) <= 4
              && (i + Distance(states[i]) < |states| ==> states[i + Distance(states[i])].count > 0)
    ensures Asleep(states[i]) && !WriterBusy(states[i]) ==> states[i].got == states[i].published == Total(states[i])
  {
    BehaviorKeeps(states, actions, i);
    if Asleep(states[i]) && Total(states[i]) > states[i].got { WrittenInTime(states, actions, i); }
  }

  // Once awake, the reader sees a flushed value that has reached memory and stops waiting.
  lemma AwakeReaderSees(s: State)
    requires Inv(s) && s.readerPc.RRead? && s.count > 0 && s.published > s.got
    ensures var fence := Do(s, ReaderStep);
            && Can(fence, ReaderStep)
            && var look := Do(fence, ReaderStep);
               Can(look, ReaderStep) && Do(look, ReaderStep).readerPc.RLower? && Do(look, ReaderStep).seen > s.got
  {
  }

  // ---------- sequential consistency ----------

  // Without store buffers: every store reaches memory in the step that makes it.
  function DoAtOnce(s: State, a: Action): State
    requires Can(s, a)
  {
    var s' := Do(s, a);
    if a.Flush? && Can(s', WriterDrain) then Do(s', WriterDrain)
    else if a.ReaderStep? && Can(s', ReaderDrain) then Do(s', ReaderDrain)
    else s'
  }

  // The steps of a sequentially consistent machine are among those of the machine above.
  lemma AtOnceKeeps(s: State, a: Action)
    requires Inv(s) && s.writerBuffer == [] && s.readerBuffer == [] && Can(s, a)
    ensures var s' := DoAtOnce(s, a); Inv(s') && s'.writerBuffer == [] && s'.readerBuffer == []
  {
    hide Inv;
    StepKeeps(s, a);
    if a.Flush? { StepKeeps(Do(s, a), WriterDrain); }
    if a.ReaderStep? && Do(s, a).readerBuffer != [] { StepKeeps(Do(s, a), ReaderDrain); }
  }

  ghost predicate SequentialBehavior(states: seq<State>, actions: seq<Action>) {
    && |states| == |actions| + 1 && states[0] == INIT
    && (forall i | 0 <= i < |actions| :: Can(states[i], actions[i]) && states[i + 1] == DoAtOnce(states[i], actions[i]))
  }

  lemma {:induction false} SequentialKeeps(states: seq<State>, actions: seq<Action>, i: nat)
    requires SequentialBehavior(states, actions) && i < |states|
    ensures Inv(states[i]) && states[i].writerBuffer == [] && states[i].readerBuffer == []
  {
    hide DoAtOnce;
    if i > 0 {
      SequentialKeeps(states, actions, i - 1);
      AtOnceKeeps(states[i - 1], actions[i - 1]);
    }
  }

  // While the reader sleeps with a value to take, only the writer can move, and its steps leave no store behind.
  lemma OnlyTheWriter(s: State, a: Action)
    requires Inv(s) && Asleep(s) && s.published > s.got && s.writerBuffer == [] && s.readerBuffer == [] && Can(s, a)
    ensures a.WriterStep? && DoAtOnce(s, a) == Do(s, a)
    ensures WriterBusy(s) && Distance(s) <= 3 && Total(s) == s.published
  {
  }

  lemma {:induction false} WrittenInTimeSequential(states: seq<State>, actions: seq<Action>, i: nat)
    requires SequentialBehavior(states, actions) && i < |states|
    requires Asleep(states[i]) && states[i].published > states[i].got
    ensures 1 <= Distance(states[i])
    ensures i + Distance(states[i]) < |states| ==> states[i + Distance(states[i])].count > 0
    decreases |states| - i
  {
    hide Inv, Do, Can, DoAtOnce, Distance;
    SequentialKeeps(states, actions, i);
    PublishedCounts(states[i]);
    WakeupComes(states[i]);
    if i < |actions| {
      OnlyTheWriter(states[i], actions[i]);
      if states[i + 1].count == 0 {
        SequentialKeeps(states, actions, i + 1);
        PublishedCounts(states[i + 1]);
        WrittenInTimeSequential(states, actions, i + 1);
      }
    }
  }

  lemma PublishedCounts(s: State)
    requires s.writerBuffer == []
    ensures Total(s) == s.published
  {
  }

  // The same without store buffers: here the write comes after at most three steps.
  lemma NoLostWakeupSequential(states: seq<State>, actions: seq<Action>, i: nat)
    requires SequentialBehavior(states, actions) && i < |states|
    ensures Inv(states[i]) && states[i].writerBuffer == [] && states[i].readerBuffer == []
    ensures Asleep(states[i]) && states[i].published > states[i].got ==>
              && WriterBusy(states[i]) && 1 <= Distance(states[i]) <= 3
              && (i + Distance(states[i]) < |states| ==> states[i + Distance(states[i])].count > 0)
  {
    SequentialKeeps(states, actions, i);
    if Asleep(states[i]) && states[i].published > states[i].got {
      WrittenInTimeSequential(states, actions, i);
    }
  }
}
