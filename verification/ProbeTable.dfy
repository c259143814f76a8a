/** The lock-free hash table of call stacks (memprof.cpp, lines 142-187): threads run get_ht_pos, one atomic
    load, compare-and-swap or increment at a time, in any interleaving.

    The table size is the length of `slots` and the number of threads the length of `threads`. 0 marks an
    empty slot, but a call stack may hash to 0 as well: a thread that swaps 0 for 0 takes no slot and is counted
    and answered all the same. */
module ProbeTable {

  // The hash of a stack that gets a slot of its own; the "unknown" stack has one.
  type Hash = h: nat | h > 0 witness 1

  datatype Pc =
    | Idle     // between calls
    | Load     // about to load the hash at pos
    | Check    // found the slot empty, about to compare ht_size with half the table
    | Assert   // forced, about to compare ht_size with 70% of the table
    | Swap     // about to compare-and-swap
    | Bump     // slot taken, about to increment ht_size and return
    | Aborted  // std::abort() or a failed assert

  // wanted is the hash of the call stack, hash the one looked for: the same, or the hash of the "unknown"
  // stack once force is set. steps counts moves to the next slot and loads counts loads of a slot's hash,
  // both since the search for hash began; before counts the loads of a search given up for the "unknown" stack,
  // and moves the atomic steps of the whole call.
  datatype Thread = Thread(pc: Pc, wanted: nat, hash: nat, force: bool, pos: nat, wasOverflow: bool,
                           steps: nat, loads: nat, before: nat, moves: nat)

  datatype Return = Return(wanted: nat, unknown: bool, pos: nat, loads: nat, moves: nat)

  datatype State = State(slots: seq<nat>, size: nat, threads: seq<Thread>, log: seq<Return>)

  function Home(hash: nat, n: nat): (pos: nat)
    requires n > 0
    ensures pos < n
  {
    hash % n
  }

  function Begin(wanted: nat, hash: nat, force: bool, n: nat): Thread
    requires n > 0
  {
    Thread(Load, wanted, hash, force, Home(hash, n), false, 0, 0, 0, 0)
  }

  function Init(n: nat, threads: nat): State {
    State(seq(n, _ => 0), 0, seq(threads, _ => Thread(Idle, 1, 1, false, 0, false, 0, 0, 0, 0)), [])
  }

  // pos++ with wrap-around; the second wrap-around aborts.
  function Advance(th: Thread, n: nat): Thread {
    if th.pos + 1 < n then th.(pos := th.pos + 1, steps := th.steps + 1, loads := th.loads + 1)
    else if th.wasOverflow then th.(pc := Aborted)
    else th.(pos := 0, wasOverflow := true, steps := th.steps + 1, loads := th.loads + 1)
  }

  ghost predicate Shaped(s: State) {
    |s.slots| > 0 && forall t | 0 <= t < |s.threads| :: s.threads[t].pos < |s.slots|
  }

  // One atomic step of thread t; `next` is the hash of the next call if t is between calls.
  function Step(s: State, t: nat, next: nat, unknown: Hash): State
    requires Shaped(s) && t < |s.threads|
  {
    var th, n := s.threads[t].(moves := s.threads[t].moves + 1), |s.slots|;
    match th.pc
    case Idle => s.(threads := s.threads[t := Begin(next, next, false, n)])
    case Load =>
      if s.slots[th.pos] == 0 then s.(threads := s.threads[t := th.(pc := Check, loads := th.loads + 1)])
      else if s.slots[th.pos] == th.hash then Finish(s, t, th.(loads := th.loads + 1))
      else s.(threads := s.threads[t := Advance(th, n)])
    case Check =>
      if s.size <= n / 2 then s.(threads := s.threads[t := th.(pc := Swap)])
      else if th.force then s.(threads := s.threads[t := th.(pc := Assert)])
      else s.(threads := s.threads[t := Begin(th.wanted, unknown, true, n).(before := th.loads, moves := th.moves)])
    case Assert =>
      s.(threads := s.threads[t := th.(pc := if s.size * 10 < n * 7 then Swap else Aborted)])
    case Swap =>
      if s.slots[th.pos] == 0 then
        s.(slots := s.slots[th.pos := th.hash], threads := s.threads[t := th.(pc := Bump)])
      else s.(threads := s.threads[t := th.(pc := Load)])
    case Bump => Finish(s.(size := s.size + 1), t, th)
    case Aborted => s
  }

  function Finish(s: State, t: nat, th: Thread): State
    requires t < |s.threads|
  {
    s.(threads := s.threads[t := th.(pc := Idle)], log := s.log + [Return(th.wanted, th.force, th.pos, th.before + th.loads, th.moves)])
  }

  // ---------- the invariant ----------

  // How far pos lies behind home on the ring of slots.
  function Offset(home: nat, pos: nat, n: nat): (d: nat)
    requires home < n && pos < n
    ensures d < n
  {
    if pos >= home then pos - home else pos + n - home
  }

  // The first d slots from home on are taken.
  ghost predicate Run(slots: seq<nat>, home: nat, d: nat)
    requires home < |slots|
  {
    forall p | 0 <= p < |slots| && Offset(home, p, |slots|) < d :: slots[p] != 0
  }

  // No hash is in two slots.
  ghost predicate Unique(slots: seq<nat>) {
    forall p, q | 0 <= p < |slots| && 0 <= q < |slots| && slots[p] != 0 && slots[p] == slots[q] :: p == q
  }

  // From the home of its hash, every taken slot is reached through taken slots.
  ghost predicate Reachable(slots: seq<nat>) {
    forall p | 0 <= p < |slots| && slots[p] != 0 ::
      var home := Home(slots[p], |slots|);
      Run(slots, home, Offset(home, p, |slots|))
  }

  ghost predicate Searching(th: Thread) {
    th.pc.Load? || th.pc.Check? || th.pc.Assert? || th.pc.Swap?
  }

  // What a searching thread knows: every slot it passed is taken, by some other hash.
  ghost predicate Passed(slots: seq<nat>, th: Thread)
    requires |slots| > 0
  {
    var n, home := |slots|, Home(th.hash, |slots|);
    && home + th.steps < 2 * n && th.pos == (if home + th.steps < n then home + th.steps else home + th.steps - n)
    && (th.wasOverflow <==> home + th.steps >= n)
    && (forall p | 0 <= p < n && Offset(home, p, n) < th.steps :: slots[p] != 0 && slots[p] != th.hash)
  }

  ghost predicate Thrifty(slots: seq<nat>, th: Thread)
    requires th.pos < |slots|
  {
    && th.loads <= 2 * th.steps + 1
    && (th.pc.Load? && th.loads == 2 * th.steps + 1 ==> slots[th.pos] != 0)
  }

  ghost predicate ThreadOk(slots: seq<nat>, th: Thread, unknown: Hash)
    requires |slots| > 0
  {
    && th.pos < |slots|
    && (th.force ==> th.hash == unknown) && (!th.force ==> th.hash == th.wanted)
    && (Searching(th) ==> Passed(slots, th) && Thrifty(slots, th))
    && (th.pc.Assert? ==> th.force)
    && (th.pc.Bump? ==> (th.hash != 0 ==> slots[th.pos] == th.hash) && th.steps < |slots| && th.loads <= 2 * th.steps + 1)
  }

  // The hash a call ended at
  function Key(r: Return, unknown: Hash): nat {
    if r.unknown then unknown else r.wanted
  }

  ghost predicate ReturnOk(slots: seq<nat>, r: Return, unknown: Hash) {
    r.pos < |slots| && (Key(r, unknown) != 0 ==> slots[r.pos] == Key(r, unknown))
  }

  ghost predicate Safe(s: State, unknown: Hash) {
    && |s.slots| > 0
    && Unique(s.slots) && Reachable(s.slots)
    && (forall t | 0 <= t < |s.threads| :: ThreadOk(s.slots, s.threads[t], unknown))
    && (forall k | 0 <= k < |s.log| :: ReturnOk(s.slots, s.log[k], unknown))
  }

  // Slots are taken once and never change again.
  ghost predicate Grows(slots: seq<nat>, later: seq<nat>) {
    |later| == |slots| && forall p | 0 <= p < |slots| && slots[p] != 0 :: later[p] == slots[p]
  }

  // ---------- every step keeps it ----------

  lemma GrowthKeepsThread(slots: seq<nat>, later: seq<nat>, th: Thread, unknown: Hash)
    requires |slots| > 0 && Grows(slots, later) && ThreadOk(slots, th, unknown)
    ensures ThreadOk(later, th, unknown)
  {
  }

  // Taking the first empty slot on the way from its home gives a hash, unless it is 0, that was nowhere in the table.
  lemma TakenSlotIsNew(slots: seq<nat>, th: Thread)
    requires |slots| > 0 && Unique(slots) && Reachable(slots)
    requires Passed(slots, th) && slots[th.pos] == 0
    ensures th.hash != 0 ==> forall q | 0 <= q < |slots| :: slots[q] != th.hash
    ensures th.steps < |slots| && th.steps == Offset(Home(th.hash, |slots|), th.pos, |slots|)
    ensures Run(slots, Home(th.hash, |slots|), th.steps)
  {
    var n := |slots|;
    var home := Home(th.hash, n);
    assert th.steps < n by {
      assert Offset(home, th.pos, n) < n;
    }
  }

  lemma TakeKeepsTable(slots: seq<nat>, th: Thread)
    requires |slots| > 0 && Unique(slots) && Reachable(slots)
    requires Passed(slots, th) && slots[th.pos] == 0
    ensures var later := slots[th.pos := th.hash]; Unique(later) && Reachable(later) && Grows(slots, later)
  {
    TakenSlotIsNew(slots, th);
    var n, later := |slots|, slots[th.pos := th.hash];
    forall p | 0 <= p < n && later[p] != 0 ensures var home := Home(later[p], n); Run(later, home, Offset(home, p, n)) {
      if p != th.pos {
        assert Run(slots, Home(slots[p], n), Offset(Home(slots[p], n), p, n));
      }
    }
  }

  // A step moves one thread, and takes at most the slot that thread is at.
  lemma StepShape(s: State, t: nat, next: nat, unknown: Hash)
    requires Shaped(s) && t < |s.threads|
    ensures var s' := Step(s, t, next, unknown);
            && |s'.threads| == |s.threads| && |s'.slots| == |s.slots|
            && (forall u | 0 <= u < |s.threads| && u != t :: s'.threads[u] == s.threads[u])
            && (s'.slots == s.slots
                || (s.threads[t].pc.Swap? && s.slots[s.threads[t].pos] == 0
                    && s'.slots == s.slots[s.threads[t].pos := s.threads[t].hash]))
            && (s'.log == s.log
                || (s'.log == s.log + [Return(s.threads[t].wanted, s.threads[t].force, s.threads[t].pos,
                                         s'.threads[t].before + s'.threads[t].loads, s'.threads[t].moves)]
                    && s'.threads[t].pc.Idle?
                    && (s.threads[t].pc.Bump?
                        || (s.threads[t].pc.Load? && s.slots[s.threads[t].pos] == s.threads[t].hash != 0))))
  {
  }

  lemma BeginIsOk(slots: seq<nat>, wanted: nat, hash: nat, force: bool, unknown: Hash)
    requires |slots| > 0 && (if force then hash == unknown else hash == wanted)
    ensures ThreadOk(slots, Begin(wanted, hash, force, |slots|), unknown)
  {
  }

  lemma AdvanceIsOk(slots: seq<nat>, th: Thread, unknown: Hash)
    requires |slots| > 0 && ThreadOk(slots, th, unknown) && th.pc.Load?
    requires slots[th.pos] != 0 && slots[th.pos] != th.hash
    ensures ThreadOk(slots, Advance(th, |slots|), unknown)
  {
    var n, home := |slots|, Home(th.hash, |slots|);
    var next := Advance(th, n);
    if next.pc.Load? {
      forall p | 0 <= p < n && Offset(home, p, n) < next.steps ensures slots[p] != 0 && slots[p] != th.hash {
        assert Offset(home, p, n) == th.steps ==> p == th.pos;
      }
    }
  }

  // How much a thread has done so far does not matter.
  lemma MetersDoNotMatter(slots: seq<nat>, th: Thread, before: nat, moves: nat, unknown: Hash)
    requires |slots| > 0 && ThreadOk(slots, th, unknown)
    ensures ThreadOk(slots, th.(before := before, moves := moves), unknown)
  {
  }

  lemma SearchGoesOn(slots: seq<nat>, th: Thread, pc: Pc, unknown: Hash)
    requires |slots| > 0 && ThreadOk(slots, th, unknown) && Searching(th)
    requires pc.Swap? || (pc.Assert? && th.force) || (pc.Load? && slots[th.pos] != 0)
    ensures ThreadOk(slots, th.(pc := pc), unknown)
  {
  }

  lemma EmptySlotFound(slots: seq<nat>, th: Thread, unknown: Hash)
    requires |slots| > 0 && ThreadOk(slots, th, unknown) && th.pc.Load? && slots[th.pos] == 0
    ensures ThreadOk(slots, th.(pc := Check, loads := th.loads + 1), unknown)
  {
  }

  lemma LoadedThreadIsOk(s: State, t: nat, next: nat, unknown: Hash)
    requires Safe(s, unknown) && t < |s.threads| && s.threads[t].pc.Load?
    ensures Shaped(s)
    ensures var s' := Step(s, t, next, unknown); ThreadOk(s'.slots, s'.threads[t], unknown)
  {
    hide Unique, Reachable, ReturnOk, Passed, Thrifty;
    assert Shaped(s) && ThreadOk(s.slots, s.threads[t], unknown);
    var th := s.threads[t].(moves := s.threads[t].moves + 1);
    MetersDoNotMatter(s.slots, s.threads[t], th.before, th.moves, unknown);
    if s.slots[th.pos] == 0 {
      EmptySlotFound(s.slots, th, unknown);
    } else if s.slots[th.pos] != th.hash {
      AdvanceIsOk(s.slots, th, unknown);
    }
  }

  lemma MovedThreadIsOk(s: State, t: nat, next: nat, unknown: Hash)
    requires Safe(s, unknown) && t < |s.threads|
    ensures Shaped(s)
    ensures var s' := Step(s, t, next, unknown); ThreadOk(s'.slots, s'.threads[t], unknown)
  {
    hide Unique, Reachable, ReturnOk, Passed;
    assert Shaped(s) && ThreadOk(s.slots, s.threads[t], unknown);
    var th := s.threads[t].(moves := s.threads[t].moves + 1);
    MetersDoNotMatter(s.slots, s.threads[t], th.before, th.moves, unknown);
    match th.pc
    case Idle => BeginIsOk(s.slots, next, next, false, unknown);
    case Load => LoadedThreadIsOk(s, t, next, unknown);
    case Check =>
      var other := Begin(th.wanted, unknown, true, |s.slots|);
      BeginIsOk(s.slots, th.wanted, unknown, true, unknown);
      MetersDoNotMatter(s.slots, other, th.loads, th.moves, unknown);
      SearchGoesOn(s.slots, th, Swap, unknown);
      if th.force { SearchGoesOn(s.slots, th, Assert, unknown); }
    case Assert => SearchGoesOn(s.slots, th, Swap, unknown);
    case Swap =>
      if s.slots[th.pos] == 0 { SwapIsEarly(s.slots, th); } else { SearchGoesOn(s.slots, th, Load, unknown); }
    case Bump =>
    case Aborted =>
  }

  lemma SwapIsEarly(slots: seq<nat>, th: Thread)
    requires |slots| > 0 && Passed(slots, th) && slots[th.pos] == 0
    ensures th.steps < |slots|
  {
    assert Offset(Home(th.hash, |slots|), th.pos, |slots|) < |slots|;
  }

  lemma StepGrows(s: State, t: nat, next: nat, unknown: Hash)
    requires Safe(s, unknown) && t < |s.threads|
    ensures Shaped(s)
    ensures var s' := Step(s, t, next, unknown); Unique(s'.slots) && Reachable(s'.slots) && Grows(s.slots, s'.slots)
  {
    hide Unique, Reachable, ReturnOk;
    assert Shaped(s);
    var th := s.threads[t];
    assert ThreadOk(s.slots, th, unknown);
    if th.pc.Swap? && s.slots[th.pos] == 0 { TakeKeepsTable(s.slots, th); }
  }

  lemma StepIsSafe(s: State, t: nat, next: nat, unknown: Hash)
    requires Safe(s, unknown) && t < |s.threads|
    ensures Shaped(s) && Safe(Step(s, t, next, unknown), unknown)
    ensures Grows(s.slots, Step(s, t, next, unknown).slots)
  {
    hide Unique, Reachable, ThreadOk, Step;
    StepGrows(s, t, next, unknown);
    var s' := Step(s, t, next, unknown);
    StepShape(s, t, next, unknown);
    MovedThreadIsOk(s, t, next, unknown);
    forall u | 0 <= u < |s'.threads| ensures ThreadOk(s'.slots, s'.threads[u], unknown) {
      if u != t { GrowthKeepsThread(s.slots, s'.slots, s.threads[u], unknown); }
    }
    forall k | 0 <= k < |s'.log| ensures ReturnOk(s'.slots, s'.log[k], unknown) {
      if k < |s.log| {
        assert ReturnOk(s.slots, s.log[k], unknown);
      } else {
        ReturnIsOk(s, t, unknown);
      }
    }
  }

  lemma ReturnIsOk(s: State, t: nat, unknown: Hash)
    requires Safe(s, unknown) && t < |s.threads|
    requires s.threads[t].pc.Bump? || (s.threads[t].pc.Load? && s.threads[t].pos < |s.slots| && s.slots[s.threads[t].pos] == s.threads[t].hash)
    ensures s.threads[t].pos < |s.slots|
    ensures s.threads[t].hash != 0 ==> s.slots[s.threads[t].pos] == s.threads[t].hash
    ensures s.threads[t].hash == if s.threads[t].force then unknown else s.threads[t].wanted
  {
    assert ThreadOk(s.slots, s.threads[t], unknown);
  }

  // ---------- every run ----------

  ghost predicate Moves(s: State, s': State, unknown: Hash) {
    Shaped(s) && exists t: nat, next: nat :: t < |s.threads| && s' == Step(s, t, next, unknown)
  }

  // The states of a run of any number of threads, interleaved in any order.
  ghost predicate Behavior(states: seq<State>, n: nat, threads: nat, unknown: Hash) {
    && n > 0 && |states| > 0 && states[0] == Init(n, threads)
    && (forall i | 0 <= i < |states| - 1 :: Moves(states[i], states[i + 1], unknown))
  }

  lemma InitIsSafe(n: nat, threads: nat, unknown: Hash)
    requires n > 0
    ensures Safe(Init(n, threads), unknown)
  {
  }

  lemma {:induction false} BehaviorIsSafe(states: seq<State>, n: nat, threads: nat, unknown: Hash, i: nat)
    requires Behavior(states, n, threads, unknown) && i < |states|
    ensures Safe(states[i], unknown) && |states[i].slots| == n && |states[i].threads| == threads
  {
    hide Safe, Step;
    if i == 0 {
      InitIsSafe(n, threads, unknown);
    } else {
      BehaviorIsSafe(states, n, threads, unknown, i - 1);
      assert Moves(states[i - 1], states[i], unknown);
      var t: nat, next: nat :| t < |states[i - 1].threads| && states[i] == Step(states[i - 1], t, next, unknown);
      StepIsSafe(states[i - 1], t, next, unknown);
      StepShape(states[i - 1], t, next, unknown);
    }
  }

  lemma {:induction false} SlotsNeverChange(states: seq<State>, n: nat, threads: nat, unknown: Hash, i: nat, j: nat)
    requires Behavior(states, n, threads, unknown) && i <= j < |states|
    ensures Grows(states[i].slots, states[j].slots)
  {
    hide Safe, Step;
    if i < j {
      SlotsNeverChange(states, n, threads, unknown, i, j - 1);
      BehaviorIsSafe(states, n, threads, unknown, j - 1);
      assert Moves(states[j - 1], states[j], unknown);
      var t: nat, next: nat :| t < |states[j - 1].threads| && states[j] == Step(states[j - 1], t, next, unknown);
      StepIsSafe(states[j - 1], t, next, unknown);
    }
  }

  // Two calls that end at the same hash other than 0 return the same position, whenever and wherever they ran.
  lemma SameHashSamePosition(states: seq<State>, n: nat, threads: nat, unknown: Hash, i: nat, k: nat, l: nat)
    requires Behavior(states, n, threads, unknown) && i < |states| && k < |states[i].log| && l < |states[i].log|
    ensures var a, b := Key(states[i].log[k], unknown), Key(states[i].log[l], unknown);
            a != 0 && b != 0 ==> (a == b <==> states[i].log[k].pos == states[i].log[l].pos)
  {
    BehaviorIsSafe(states, n, threads, unknown, i);
    assert ReturnOk(states[i].slots, states[i].log[k], unknown) && ReturnOk(states[i].slots, states[i].log[l], unknown);
  }
}
