/** How full the lock-free table gets and how long a call takes (memprof.cpp, lines 150-187). The size
    counter is incremented only after a slot is taken, so it lags behind by up to one per thread. */
module ProbeBounds {
  import opened Counting
  import opened ProbeTable

  predicate Taken(x: nat) {
    x != 0
  }

  predicate Bumping(th: Thread) {
    th.pc.Bump?
  }

  // Passed the half-full check and is about to take a slot for a stack of its own.
  predicate Taking(th: Thread) {
    th.pc.Swap? && !th.force
  }

  // Stacks that hash to 0 are counted without taking a slot, so the counter may also be ahead.
  ghost predicate Bounded(s: State, unknown: Hash) {
    && Count(s.slots, Taken) <= s.size + Count(s.threads, Bumping)
    && s.size + Count(s.threads, Bumping) + Count(s.threads, Taking)
       <= |s.slots| / 2 + |s.threads| + if unknown in s.slots then 1 else 0
  }

  lemma CountThreads(s: State, t: nat, next: nat, unknown: Hash)
    requires Safe(s, unknown) && t < |s.threads|
    ensures Shaped(s)
    ensures var th, s' := s.threads[t], Step(s, t, next, unknown);
            var th' := s'.threads[t];
            && Count(s'.threads, Bumping) ==
               Count(s.threads, Bumping) - (if Bumping(th) then 1 else 0) + (if Bumping(th') then 1 else 0)
            && Count(s'.threads, Taking) ==
               Count(s.threads, Taking) - (if Taking(th) then 1 else 0) + (if Taking(th') then 1 else 0)
  {
    hide Count;
    StepIsSafe(s, t, next, unknown);
    StepShape(s, t, next, unknown);
    var s' := Step(s, t, next, unknown);
    assert s'.threads == s.threads[t := s'.threads[t]] by { hide Step; }
    CountUpdate(s.threads, t, s'.threads[t], Bumping);
    CountUpdate(s.threads, t, s'.threads[t], Taking);
  }

  // A successful swap of a hash other than 0 takes one more slot, for a hash that was nowhere in the table.
  lemma SwapTakesOne(s: State, t: nat, next: nat, unknown: Hash)
    requires Safe(s, unknown) && t < |s.threads| && s.threads[t].pc.Swap? && s.threads[t].pos < |s.slots| && s.slots[s.threads[t].pos] == 0
    ensures Shaped(s)
    ensures var s' := Step(s, t, next, unknown);
            && Count(s'.slots, Taken) == Count(s.slots, Taken) + (if s.threads[t].hash == 0 then 0 else 1)
            && (s.threads[t].hash != 0 ==> s.threads[t].hash !in s.slots) && s.threads[t].hash in s'.slots
            && (unknown in s.slots ==> unknown in s'.slots)
  {
    hide Count;
    var th := s.threads[t];
    assert ThreadOk(s.slots, th, unknown);
    TakenSlotIsNew(s.slots, th);
    StepIsSafe(s, t, next, unknown);
    var s' := Step(s, t, next, unknown);
    CountUpdate(s.slots, th.pos, th.hash, Taken);
    assert s'.slots[th.pos] == th.hash;
    if unknown in s.slots {
      var p :| 0 <= p < |s.slots| && s.slots[p] == unknown;
      assert s'.slots[p] == unknown;
    }
  }

  lemma StepIsBounded(s: State, t: nat, next: nat, unknown: Hash)
    requires Safe(s, unknown) && Bounded(s, unknown) && t < |s.threads|
    ensures Shaped(s) && Bounded(Step(s, t, next, unknown), unknown)
  {
    hide Count, Safe, Passed, Thrifty;
    var th := s.threads[t];
    CountThreads(s, t, next, unknown);
    CountDisjoint(s.threads, Bumping, Taking);
    var s' := Step(s, t, next, unknown);
    CountDisjoint(s'.threads, Bumping, Taking);
    ThreadIsOk(s, t, unknown);
    if th.pc.Swap? && s.slots[th.pos] == 0 { SwapTakesOne(s, t, next, unknown); }
  }

  lemma ThreadIsOk(s: State, t: nat, unknown: Hash)
    requires Safe(s, unknown) && t < |s.threads|
    ensures |s.slots| > 0 && ThreadOk(s.slots, s.threads[t], unknown)
  {
  }

  // At most half the table and one slot for each thread and the "unknown" stack are ever taken.
  lemma {:induction false} BehaviorIsBounded(states: seq<State>, n: nat, threads: nat, unknown: Hash, i: nat)
    requires Behavior(states, n, threads, unknown) && i < |states|
    ensures Bounded(states[i], unknown) && Count(states[i].slots, Taken) <= n / 2 + threads + 1
  {
    hide Safe, Step, Count;
    BehaviorIsSafe(states, n, threads, unknown, i);
    if i == 0 {
      InitIsBounded(n, threads, unknown);
    } else {
      BehaviorIsBounded(states, n, threads, unknown, i - 1);
      BehaviorIsSafe(states, n, threads, unknown, i - 1);
      assert Moves(states[i - 1], states[i], unknown);
      var t: nat, next: nat :| t < |states[i - 1].threads| && states[i] == Step(states[i - 1], t, next, unknown);
      StepIsBounded(states[i - 1], t, next, unknown);
    }
  }

  lemma InitIsBounded(n: nat, threads: nat, unknown: Hash)
    ensures Bounded(Init(n, threads), unknown)
  {
    CountNone(Init(n, threads).slots, Taken);
    CountNone(Init(n, threads).threads, Bumping);
    CountNone(Init(n, threads).threads, Taking);
  }

  // ---------- what the counter counts ----------

  predicate Filling(th: Thread) {
    th.pc.Bump? && th.hash != 0
  }

  predicate Slotless(r: Return) {
    !r.unknown && r.wanted == 0
  }

  // Every count stands for a slot taken or for a finished call of a stack that hashes to 0.
  ghost predicate Conserved(s: State) {
    Count(s.slots, Taken) + Count(s.log, Slotless) == s.size + Count(s.threads, Filling)
  }

  lemma StepConserves(s: State, t: nat, next: nat, unknown: Hash)
    requires Safe(s, unknown) && Conserved(s) && t < |s.threads|
    ensures Shaped(s) && Conserved(Step(s, t, next, unknown))
  {
    hide Count, Safe, Passed, Thrifty;
    var th := s.threads[t];
    ThreadIsOk(s, t, unknown);
    StepIsSafe(s, t, next, unknown);
    StepShape(s, t, next, unknown);
    var s' := Step(s, t, next, unknown);
    assert s'.threads == s.threads[t := s'.threads[t]] by { hide Step; }
    CountUpdate(s.threads, t, s'.threads[t], Filling);
    if s'.log != s.log { CountAppend(s.log, s'.log[|s.log|], Slotless); }
    if th.pc.Swap? && s.slots[th.pos] == 0 { SwapTakesOne(s, t, next, unknown); }
  }

  lemma {:induction false} BehaviorConserves(states: seq<State>, n: nat, threads: nat, unknown: Hash, i: nat)
    requires Behavior(states, n, threads, unknown) && i < |states|
    ensures Conserved(states[i])
  {
    hide Safe, Step, Count;
    if i == 0 {
      CountNone(states[0].slots, Taken);
      CountNone(states[0].threads, Filling);
      CountNone(states[0].log, Slotless);
    } else {
      BehaviorConserves(states, n, threads, unknown, i - 1);
      BehaviorIsSafe(states, n, threads, unknown, i - 1);
      assert Moves(states[i - 1], states[i], unknown);
      var t: nat, next: nat :| t < |states[i - 1].threads| && states[i] == Step(states[i - 1], t, next, unknown);
      StepConserves(states[i - 1], t, next, unknown);
    }
  }

  // ---------- the "unknown" stack ----------

  // The "unknown" stack has been looked for in place of another only with more than half of the table counted.
  ghost predicate HalfFull(s: State) {
    && (forall t | 0 <= t < |s.threads| && s.threads[t].force :: s.size > |s.slots| / 2)
    && (forall k | 0 <= k < |s.log| && s.log[k].unknown :: s.size > |s.slots| / 2)
  }

  lemma StepForces(s: State, t: nat, next: nat, unknown: Hash)
    requires Shaped(s) && t < |s.threads|
    ensures var s' := Step(s, t, next, unknown);
            && s'.size >= s.size && |s'.slots| == |s.slots|
            && (s'.threads[t].force ==> s.threads[t].force || s.size > |s.slots| / 2)
  {
  }

  lemma StepHalfFull(s: State, t: nat, next: nat, unknown: Hash)
    requires Shaped(s) && t < |s.threads| && HalfFull(s)
    ensures HalfFull(Step(s, t, next, unknown))
  {
    StepForces(s, t, next, unknown);
    StepShape(s, t, next, unknown);
    hide Step;
    var s' := Step(s, t, next, unknown);
    forall u | 0 <= u < |s'.threads| && s'.threads[u].force ensures s'.size > |s'.slots| / 2 {
      if u != t { assert s'.threads[u] == s.threads[u]; }
    }
    forall k | 0 <= k < |s'.log| && s'.log[k].unknown ensures s'.size > |s'.slots| / 2 {
      if k < |s.log| { assert s'.log[k] == s.log[k]; }
    }
  }

  lemma {:induction false} BehaviorHalfFull(states: seq<State>, n: nat, threads: nat, unknown: Hash, i: nat)
    requires Behavior(states, n, threads, unknown) && i < |states|
    ensures HalfFull(states[i])
  {
    hide Safe, Step;
    if i > 0 {
      BehaviorHalfFull(states, n, threads, unknown, i - 1);
      assert Moves(states[i - 1], states[i], unknown);
      var t: nat, next: nat :| t < |states[i - 1].threads| && states[i] == Step(states[i - 1], t, next, unknown);
      StepHalfFull(states[i - 1], t, next, unknown);
    }
  }

  lemma UnknownOnlyWhenFull(states: seq<State>, n: nat, threads: nat, unknown: Hash, i: nat, k: nat)
    requires Behavior(states, n, threads, unknown) && i < |states| && k < |states[i].log| && states[i].log[k].unknown
    ensures states[i].size > n / 2
  {
    hide Safe, Step;
    BehaviorIsSafe(states, n, threads, unknown, i);
    BehaviorHalfFull(states, n, threads, unknown, i);
  }

  // ---------- with fewer than a fifth as many threads as slots ----------

  ghost predicate FewThreads(n: nat, threads: nat) {
    5 * (threads + 1) < n
  }

  // The table never fills up, so no search goes all the way round ...
  lemma SearchIsShort(s: State, t: nat, unknown: Hash)
    requires Safe(s, unknown) && Bounded(s, unknown) && FewThreads(|s.slots|, |s.threads|)
    requires t < |s.threads| && Searching(s.threads[t])
    ensures s.threads[t].steps < |s.slots|
  {
    hide Unique, Reachable;
    var th := s.threads[t];
    assert ThreadOk(s.slots, th, unknown);
    if th.steps >= |s.slots| {
      CountAll(s.slots, Taken);
    }
  }

  // ... and neither the 70% assert nor the abort on a second wrap-around is ever reached.
  lemma StepDoesNotAbort(s: State, t: nat, next: nat, unknown: Hash)
    requires Safe(s, unknown) && Bounded(s, unknown) && FewThreads(|s.slots|, |s.threads|)
    requires t < |s.threads| && !s.threads[t].pc.Aborted?
    ensures Shaped(s) && !Step(s, t, next, unknown).threads[t].pc.Aborted?
  {
    hide Unique, Reachable, Count;
    assert Shaped(s);
    assert ThreadOk(s.slots, s.threads[t], unknown);
    if Searching(s.threads[t]) { SearchIsShort(s, t, unknown); }
  }

  lemma {:induction false} NeverAborts(states: seq<State>, n: nat, threads: nat, unknown: Hash, i: nat, t: nat)
    requires Behavior(states, n, threads, unknown) && FewThreads(n, threads) && i < |states| && t < threads
    ensures t < |states[i].threads| && !states[i].threads[t].pc.Aborted?
    ensures states[i].size * 10 < n * 7
  {
    hide Safe, Step, Count;
    BehaviorIsSafe(states, n, threads, unknown, i);
    BehaviorIsBounded(states, n, threads, unknown, i);
    if i > 0 {
      NeverAborts(states, n, threads, unknown, i - 1, t);
      BehaviorIsSafe(states, n, threads, unknown, i - 1);
      BehaviorIsBounded(states, n, threads, unknown, i - 1);
      assert Moves(states[i - 1], states[i], unknown);
      var u: nat, next: nat :| u < |states[i - 1].threads| && states[i] == Step(states[i - 1], u, next, unknown);
      StepShape(states[i - 1], u, next, unknown);
      if u == t { StepDoesNotAbort(states[i - 1], u, next, unknown); }
    }
  }

  // ---------- how long a call takes ----------

  ghost function Rank(pc: Pc): nat {
    match pc
    case Check => 3
    case Assert => 2
    case Swap => 1
    case _ => 0
  }

  // An upper bound on the steps a thread still needs to finish its call.
  ghost function Fuel(th: Thread, n: nat): int {
    (if th.force then 0 else 8 * n + 4) + 4 * (2 * n - th.loads) + Rank(th.pc) + 1
  }

  // A step of a thread in a call ends the call or uses up fuel, and a search loads at most two hashes per slot.
  lemma EveryStepCounts(s: State, t: nat, next: nat, unknown: Hash)
    requires Safe(s, unknown) && Bounded(s, unknown) && FewThreads(|s.slots|, |s.threads|)
    requires t < |s.threads| && !s.threads[t].pc.Aborted?
    ensures Shaped(s)
    ensures var n, th, th' := |s.slots|, s.threads[t], Step(s, t, next, unknown).threads[t];
            if th.pc.Idle? then Fuel(th', n) == 16 * n + 5
            else
              && (th'.pc.Idle? || 0 < Fuel(th', n) < Fuel(th, n))
              && th'.moves == th.moves + 1 && th.loads <= 2 * n && th'.loads <= 2 * n
  {
    hide Unique, Reachable, Count;
    StepShape(s, t, next, unknown);
    assert ThreadOk(s.slots, s.threads[t], unknown);
    if Searching(s.threads[t]) { SearchIsShort(s, t, unknown); }
    StepDoesNotAbort(s, t, next, unknown);
  }

  // What a thread has done in its call so far, and what finished calls have done.
  ghost predicate ThreadMetered(th: Thread, n: nat) {
    th.pc.Idle?
    || (th.loads <= 2 * n && th.before <= (if th.force then 2 * n else 0)
        && Fuel(th, n) > 0 && th.moves + Fuel(th, n) <= 16 * n + 5)
  }

  ghost predicate ReturnMetered(r: Return, n: nat) {
    r.loads <= 4 * n && r.moves <= 16 * n + 5
  }

  lemma MovedThreadIsMetered(s: State, t: nat, next: nat, unknown: Hash)
    requires Safe(s, unknown) && Bounded(s, unknown) && FewThreads(|s.slots|, |s.threads|)
    requires t < |s.threads| && !s.threads[t].pc.Aborted? && ThreadMetered(s.threads[t], |s.slots|)
    ensures Shaped(s)
    ensures var n, s' := |s.slots|, Step(s, t, next, unknown);
            ThreadMetered(s'.threads[t], n) && (forall k | |s.log| <= k < |s'.log| :: ReturnMetered(s'.log[k], n))
  {
    hide Unique, Reachable, Count, ThreadOk, ReturnOk;
    EveryStepCounts(s, t, next, unknown);
    StepShape(s, t, next, unknown);
  }

  // In every state of every run, the calls that have ended and those that have not have made at most 16n + 5 steps
  // of their thread and loaded at most 4n hashes, whatever the other threads did; no step of a call can be blocked.
  lemma {:induction false} CallsAreShort(states: seq<State>, n: nat, threads: nat, unknown: Hash, i: nat)
    requires Behavior(states, n, threads, unknown) && FewThreads(n, threads) && i < |states|
    ensures |states[i].threads| == threads && forall t | 0 <= t < threads :: ThreadMetered(states[i].threads[t], n)
    ensures forall k | 0 <= k < |states[i].log| :: ReturnMetered(states[i].log[k], n)
  {
    hide Safe, Step, Count, ThreadMetered, ReturnMetered;
    BehaviorIsSafe(states, n, threads, unknown, i);
    if i == 0 {
      forall t | 0 <= t < threads ensures ThreadMetered(states[0].threads[t], n) { IdleIsMetered(states[0].threads[t], n); }
    } else {
      var s, s' := states[i - 1], states[i];
      CallsAreShort(states, n, threads, unknown, i - 1);
      BehaviorIsSafe(states, n, threads, unknown, i - 1);
      BehaviorIsBounded(states, n, threads, unknown, i - 1);
      assert Moves(s, s', unknown);
      var t: nat, next: nat :| t < |s.threads| && s' == Step(s, t, next, unknown);
      NeverAborts(states, n, threads, unknown, i - 1, t);
      StepShape(s, t, next, unknown);
      MovedThreadIsMetered(s, t, next, unknown);
    }
  }

  lemma IdleIsMetered(th: Thread, n: nat)
    requires th.pc.Idle?
    ensures ThreadMetered(th, n)
  {
  }
}
