/**
 What a process gets for its priority, its sleep and its exit code, over whole runs of the scheduler.
 */
module ScheduleTurns {
  import opened Arithmetic
  import opened Clock
  import opened Contexts
  import opened Options
  import opened Scheduling
  import opened ScheduleRuns

  // Turns.

  /** The process is scheduled or has its turn. */
  predicate Active(s: State, pid: nat) {
    pid in s.scheduled || (pid in s.waiting && s.waiting[pid].status == Running)
  }

  /** The process is active at a level. */
  predicate ActiveAt(s: State, pid: nat, level: nat) {
    Active(s, pid) && ProcOf(s, pid).priority == level
  }

  /** The process whose turn it is has the counter that newcomers get. */
  predicate OwnCounter(s: State) {
    s.cpuContext.Some? && s.current in s.waiting ==> s.waiting[s.current].counter == s.maxPriority
  }

  lemma OwnCounterStep(s: State, a: Action)
    requires Inv(s) && Enabled(s, a) && Works(s, a) && OwnCounter(s)
    ensures OwnCounter(Step(s, a))
  {
    hide Counters, Family, Waits, Saves, Swept, Low;
    if a.Round? {
      SweptPlaces(s, a.now);
    }
  }

  lemma StartOwnCounter(live: Live)
    ensures OwnCounter(Start(live))
  {}

  lemma {:induction false} RunOwnCounter(states: seq<State>, actions: seq<Action>, k: nat)
    requires ScheduleRuns.IsRun(states, actions) && k <= |actions|
    ensures OwnCounter(states[k])
  {
    hide Inv, Enabled, Works, Step, OwnCounter, Start;
    if k == 0 {
      StartOwnCounter(states[0].live);
    } else {
      RunOwnCounter(states, actions, k - 1);
      RunInv(states, actions, k - 1);
      assert StepsTo(states[k - 1], actions[k - 1], states[k]);
      OwnCounterStep(states[k - 1], actions[k - 1]);
    }
  }

  /** The round resets the counters of all scheduled processes. */
  predicate Resets(s: State, a: Action) {
    a.Round? && Low(Swept(s, a.now))
  }

  lemma TurnOtherStep(s: State, a: Action, pid: nat)
    requires Inv(s) && Enabled(s, a) && Works(s, a) && OwnCounter(s) && !a.Round?
    requires Active(s, pid) && Active(Step(s, a), pid)
    ensures ProcOf(Step(s, a), pid).counter == ProcOf(s, pid).counter
  {
    hide Inv, Places, Swept, Dispatched, ToContext;
    InvParts(s);
    if a.Push? {
      NewIsNew(s, a.pid);
    } else if a.Yield? && InProcess(s) {
      YieldedCounter(s, pid);
    } else {
      hide OwnCounter;
      PlacesApart(s);
    }
  }

  /** Ids that were never given out belong to no process. */
  lemma NewIsNew(s: State, pid: nat)
    requires Inv(s) && pid !in s.parents
    ensures !Exists(s, pid)
  {
    hide Places, Counters, Waits, Saves, GoneChild;
  }

  lemma PlacesApart(s: State)
    requires Places(s)
    ensures s.scheduled.Keys !! s.waiting.Keys
  {}

  lemma YieldedCounter(s: State, pid: nat)
    requires Places(s) && OwnCounter(s) && InProcess(s) && Active(s, pid)
    ensures s.current in s.waiting && Active(Yielded(s), pid)
    ensures ProcOf(Yielded(s), pid).counter == ProcOf(s, pid).counter
  {
    hide ToContext, ToLive;
  }

  lemma TurnRound(s: State, now: ClockTime, choice: nat, pid: nat)
    requires Inv(s) && Enabled(s, Round(now, choice)) && Works(s, Round(now, choice))
    requires Active(s, pid) && !Low(Swept(s, now))
    ensures Active(Step(s, Round(now, choice)), pid)
    ensures ProcOf(Step(s, Round(now, choice)), pid).counter
         == ProcOf(s, pid).counter
          - if DispatchesPid(s, Round(now, choice), pid) then 6 - ProcOf(s, pid).priority else 0
  {
    hide Counters, Family, Waits, Saves, Swept, Woken, SweepWorks;
    SweptKeeps(s, now, pid);
    SweptPlaces(s, now);
    assert pid in s.scheduled && pid in Swept(s, now).scheduled;
    hide Low;
  }

  /** How often a process is dispatched. */
  function Turns(states: seq<State>, actions: seq<Action>, i: nat, k: nat, pid: nat): nat
    requires i <= k <= |actions| && k <= |states|
  {
    if i == k then 0
    else Turns(states, actions, i, k - 1, pid) + if DispatchesPid(states[k - 1], actions[k - 1], pid) then 1 else 0
  }

  /** A process is active at one level all the time, and there is no reset. */
  ghost predicate Competes(states: seq<State>, actions: seq<Action>, i: nat, k: nat, pid: nat, level: nat)
    requires i <= k <= |actions| && |states| == |actions| + 1
  {
    && (forall j :: i <= j <= k ==> ActiveAt(states[j], pid, level))
    && (forall j :: i <= j < k ==> !Resets(states[j], actions[j]))
  }

  /** Every turn of a process costs it 6 less its level, and nothing else does. */
  lemma {:induction false} TurnsCost(states: seq<State>, actions: seq<Action>, i: nat, k: nat, pid: nat, level: nat)
    requires ScheduleRuns.IsRun(states, actions) && i <= k <= |actions| && Competes(states, actions, i, k, pid, level)
    ensures Active(states[i], pid) && Active(states[k], pid)
    ensures ProcOf(states[k], pid).counter
         == ProcOf(states[i], pid).counter - (6 - level) * Turns(states, actions, i, k, pid)
  {
    hide Inv, Enabled, Works, Step, OwnCounter, DispatchesPid, Resets, Active, ProcOf;
    assert ActiveAt(states[i], pid, level) && ActiveAt(states[k], pid, level);
    if i < k {
      TurnsCost(states, actions, i, k - 1, pid, level);
      RunInv(states, actions, k - 1);
      RunOwnCounter(states, actions, k - 1);
      var (s, a) := (states[k - 1], actions[k - 1]);
      assert StepsTo(s, a, states[k]) && ActiveAt(s, pid, level) && !Resets(s, a);
      TurnStep(s, a, pid);
      Distribute(Turns(states, actions, i, k - 1, pid), 1, 6 - level);
    }
  }

  lemma TurnStep(s: State, a: Action, pid: nat)
    requires Inv(s) && Enabled(s, a) && Works(s, a) && OwnCounter(s) && !Resets(s, a)
    requires Active(s, pid) && Active(Step(s, a), pid)
    ensures ProcOf(Step(s, a), pid).counter
         == ProcOf(s, pid).counter - if DispatchesPid(s, a, pid) then 6 - ProcOf(s, pid).priority else 0
  {
    hide Inv, Enabled, Works, Step, OwnCounter, Active, ProcOf, Low, Swept;
    if a.Round? {
      TurnRound(s, a.now, a.choice, pid);
    } else {
      TurnOtherStep(s, a, pid);
    }
  }

  lemma ActiveNear(s: State, pid: nat)
    requires Inv(s) && OwnCounter(s) && Active(s, pid)
    ensures s.ceiling - 5 <= ProcOf(s, pid).counter <= s.ceiling
  {
    hide Family, Waits, Saves;
  }

  lemma RunNear(states: seq<State>, actions: seq<Action>, k: nat, pid: nat)
    requires ScheduleRuns.IsRun(states, actions) && k <= |actions| && Active(states[k], pid)
    ensures states[k].ceiling - 5 <= ProcOf(states[k], pid).counter <= states[k].ceiling
  {
    hide Inv, Active, ProcOf, OwnCounter;
    RunInv(states, actions, k);
    RunOwnCounter(states, actions, k);
    ActiveNear(states[k], pid);
  }

  /**
   Turns are shared by priority: between two resets, what two processes have paid for theirs, at 6 less its
   level for each turn, never differs by more than 10.  Of two that start with equal counters and have had as many
   turns, the one with the higher level is not behind.
   */
  lemma ProportionalShare(states: seq<State>, actions: seq<Action>, i: nat, k: nat, p: nat, level: nat, q: nat,
                          other: nat)
    requires ScheduleRuns.IsRun(states, actions) && i <= k <= |actions|
    requires Competes(states, actions, i, k, p, level) && Competes(states, actions, i, k, q, other)
    ensures -10 <= (6 - level) * Turns(states, actions, i, k, p) - (6 - other) * Turns(states, actions, i, k, q) <= 10
    ensures Active(states[i], p) && Active(states[i], q) && Active(states[k], p) && Active(states[k], q)
    ensures level >= other && Turns(states, actions, i, k, p) == Turns(states, actions, i, k, q) ==>
      ProcOf(states[i], p).counter == ProcOf(states[i], q).counter ==>
        ProcOf(states[k], p).counter >= ProcOf(states[k], q).counter
  {
    hide Inv, Active, ProcOf, OwnCounter, Competes, Turns;
    TurnsCost(states, actions, i, k, p, level);
    TurnsCost(states, actions, i, k, q, other);
    RunNear(states, actions, i, p);
    RunNear(states, actions, i, q);
    RunNear(states, actions, k, p);
    RunNear(states, actions, k, q);
    if level >= other {
      MulMonotone(6 - level, 6 - other, Turns(states, actions, i, k, p));
    }
  }

  /** The counters a round picks from: they are what they were, unless all are below 100, and then the highest. */
  lemma ReadyCounters(s: State, now: ClockTime, pid: nat)
    requires Places(s) && pid in Ready(s, now).scheduled
    ensures pid in Swept(s, now).scheduled && Exists(s, pid)
    ensures var low := forall q :: q in Swept(s, now).scheduled ==> Swept(s, now).scheduled[q].counter < 100;
      Ready(s, now).scheduled[pid].counter ==
      if low then 0xFFFF_FFFF_FFFF_FFFF else if pid in s.scheduled then s.scheduled[pid].counter else s.maxPriority
    ensures Ready(s, now).scheduled[pid].priority == ProcOf(s, pid).priority
  {
    hide Swept, Woken;
    SweptKeeps(s, now, pid);
    SweptPlaces(s, now);
  }

  /** What becomes of a process after the sweep: one that waits goes on waiting, any other is scheduled or runs. */
  lemma RoundProc(s: State, now: ClockTime, choice: nat, pid: nat)
    requires Enabled(s, Round(now, choice)) && Works(s, Round(now, choice))
    requires Places(Swept(s, now)) && Exists(Swept(s, now), pid)
    ensures var (u, t) := (Swept(s, now), Step(s, Round(now, choice)));
      && Exists(t, pid) && ProcOf(t, pid).childExits == ProcOf(u, pid).childExits
      && (pid in u.waiting ==> pid in t.waiting && t.waiting[pid] == u.waiting[pid])
      && (pid in u.scheduled ==> Active(t, pid))
  {
    hide Swept, SweepWorks, IsTop, ResetIfLow, Dispatched, CanDispatch, Places;
    var v := Ready(s, now);
    ResetProc(Swept(s, now), pid);
    if v.scheduled != map[] {
      DispatchedProc(v, choice, pid);
    }
  }

  lemma ResetProc(s: State, pid: nat)
    requires Exists(s, pid)
    ensures var t := ResetIfLow(s);
      && Exists(t, pid) && ProcOf(t, pid).childExits == ProcOf(s, pid).childExits
      && (pid in t.scheduled <==> pid in s.scheduled) && t.waiting == s.waiting
    ensures Places(s) ==> ResetIfLow(s).scheduled.Keys !! ResetIfLow(s).waiting.Keys
  {
    hide Low;
  }

  lemma DispatchedProc(s: State, choice: nat, pid: nat)
    requires CanDispatch(s, choice) && Exists(s, pid) && s.scheduled.Keys !! s.waiting.Keys
    ensures var t := Dispatched(s, choice);
      && Exists(t, pid) && ProcOf(t, pid).childExits == ProcOf(s, pid).childExits
      && (pid in s.waiting ==> pid in t.waiting && t.waiting[pid] == s.waiting[pid])
      && (pid in s.scheduled ==> Active(t, pid))
  {
  }

  // Sleep.

  predicate AsleepUntil(s: State, pid: nat, deadline: nat) {
    && pid in s.waiting && s.waiting[pid].status.WaitingForTime?
    && s.waiting[pid].status.deadline.Normal() && s.waiting[pid].status.deadline.AsNanos() == deadline
  }

  lemma SleepStarts(s: State, now: ClockTime, time: ClockTime)
    requires Inv(s) && Enabled(s, Sleep(now, time)) && Works(s, Sleep(now, time))
    ensures AsleepUntil(Step(s, Sleep(now, time)), s.current, now.AsNanos() + time.AsNanos())
  {
    hide Places, Counters, Family, Waits, Saves;
  }

  lemma SleepOtherStep(s: State, a: Action, pid: nat, deadline: nat)
    requires Inv(s) && Enabled(s, a) && Works(s, a) && AsleepUntil(s, pid, deadline) && !a.Round?
    ensures AsleepUntil(Step(s, a), pid, deadline)
  {
    hide Counters, Family, Waits, Saves, Low, ClockTime.AsNanos;
  }

  lemma SleepRound(s: State, now: ClockTime, choice: nat, pid: nat, deadline: nat)
    requires Inv(s) && Enabled(s, Round(now, choice)) && Works(s, Round(now, choice))
    requires AsleepUntil(s, pid, deadline) && now.Normal()
    ensures if deadline <= now.AsNanos() then Active(Step(s, Round(now, choice)), pid)
            else AsleepUntil(Step(s, Round(now, choice)), pid, deadline)
  {
    hide Inv, Enabled, Works, Step, Swept, Places, Found, ExitsOf, ClockTime.AsNanos, ClockTime.AtMost;
    OrderIsNanos(s.waiting[pid].status.deadline, now);
    InvParts(s);
    SweptIs(s, now, pid);
    SweptPlaces(s, now);
    SweptKeeps(s, now, pid);
    RoundProc(s, now, choice, pid);
  }

  /** A sweep that comes at or after a point in time. */
  predicate RoundAfter(a: Action, deadline: nat) {
    a.Round? && deadline <= a.now.AsNanos()
  }

  /**
   A process that sleeps is asleep until the first round at or after the time it asked for, and that round makes it
   ready.
   */
  lemma {:induction false} SleepsExactly(states: seq<State>, actions: seq<Action>, i: nat, k: nat)
    requires ScheduleRuns.IsRun(states, actions) && i < k <= |actions| && actions[i].Sleep?
    requires forall j :: i <= j < k && actions[j].Round? ==> actions[j].now.Normal()
    requires forall j :: i < j < k - 1 ==>
      !RoundAfter(actions[j], actions[i].now.AsNanos() + actions[i].time.AsNanos())
    ensures var deadline := actions[i].now.AsNanos() + actions[i].time.AsNanos();
      if k - 1 > i && RoundAfter(actions[k - 1], deadline) then Active(states[k], states[i].current)
      else AsleepUntil(states[k], states[i].current, deadline)
  {
    hide Inv, Enabled, Works, Step, AsleepUntil, Active, ClockTime.AsNanos;
    assert StepsTo(states[k - 1], actions[k - 1], states[k]);
    RunInv(states, actions, k - 1);
    var (pid, deadline) := (states[i].current, actions[i].now.AsNanos() + actions[i].time.AsNanos());
    if k - 1 == i {
      SleepStarts(states[i], actions[i].now, actions[i].time);
    } else {
      SleepsExactly(states, actions, i, k - 1);
      assert k - 2 > i ==> !RoundAfter(actions[k - 2], deadline);
      if actions[k - 1].Round? {
        SleepRound(states[k - 1], actions[k - 1].now, actions[k - 1].choice, pid, deadline);
      } else {
        SleepOtherStep(states[k - 1], actions[k - 1], pid, deadline);
      }
    }
  }

  // Exit codes.

  /** The exit of a process with a code. */
  predicate ExitsWith(s: State, a: Action, pid: nat, code: int) {
    a == ExitNow(code) && s.current == pid
  }

  lemma ExitsStep(s: State, a: Action, e: Exit)
    requires Inv(s) && Enabled(s, a) && Works(s, a)
    ensures e in Step(s, a).exited ==> (e in s.exited && !a.Round?) || ExitsWith(s, a, e.pid, e.code)
    ensures a.ExitNow? ==> exists e' :: e' in Step(s, a).exited && e'.pid == s.current && e'.code == a.code
    ensures !a.Round? && e in s.exited ==> e in Step(s, a).exited
  {
    hide Counters, Family, Waits, Saves, Swept, Low;
    if a.ExitNow? {
      var e' := Exit(s.current, s.waiting[s.current].parent, a.code);
      assert Step(s, a).exited[|s.exited|] == e';
    }
  }

  /** Every exit that waits for a sweep was made by that process with that code, since the last sweep. */
  lemma {:induction false} ExitsAreReal(states: seq<State>, actions: seq<Action>, k: nat, e: Exit)
    requires ScheduleRuns.IsRun(states, actions) && k <= |actions| && e in states[k].exited
    ensures exists j ::
      0 <= j < k && ExitsWith(states[j], actions[j], e.pid, e.code) && forall m :: j < m < k ==> !actions[m].Round?
  {
    hide Inv, Enabled, Works, Step, ExitsWith;
    if k > 0 {
      RunInv(states, actions, k - 1);
      assert StepsTo(states[k - 1], actions[k - 1], states[k]);
      ExitsStep(states[k - 1], actions[k - 1], e);
      if e in states[k - 1].exited && !actions[k - 1].Round? {
        ExitsAreReal(states, actions, k - 1, e);
        var j :| 0 <= j < k - 1 && ExitsWith(states[j], actions[j], e.pid, e.code)
          && forall m :: j < m < k - 1 ==> !actions[m].Round?;
        assert forall m :: j < m < k ==> !actions[m].Round?;
      }
    }
  }

  /** An exit waits for the next sweep. */
  lemma {:induction false} ExitWaits(states: seq<State>, actions: seq<Action>, i: nat, k: nat) returns (e: Exit)
    requires ScheduleRuns.IsRun(states, actions) && i < k <= |actions| && actions[i].ExitNow?
    requires forall m :: i < m < k ==> !actions[m].Round?
    ensures e in states[k].exited && e.pid == states[i].current && e.code == actions[i].code
  {
    hide Inv, Enabled, Works, Step, ExitsWith;
    assert StepsTo(states[k - 1], actions[k - 1], states[k]);
    RunInv(states, actions, k - 1);
    if k - 1 == i {
      ExitsStep(states[i], actions[i], Exit(0, 0, 0));
      e :| e in states[k].exited && e.pid == states[i].current && e.code == actions[i].code;
    } else {
      e := ExitWaits(states, actions, i, k - 1);
      ExitsStep(states[k - 1], actions[k - 1], e);
    }
  }

  lemma RoundKeepsExits(s: State, now: ClockTime, choice: nat, pid: nat)
    requires Inv(s) && Enabled(s, Round(now, choice)) && Works(s, Round(now, choice)) && Exists(s, pid)
    ensures Exists(Swept(s, now), pid) && Exists(Step(s, Round(now, choice)), pid)
    ensures ProcOf(Step(s, Round(now, choice)), pid).childExits == ProcOf(Swept(s, now), pid).childExits
  {
    hide Inv, Enabled, Works, Step, Swept, Places;
    InvParts(s);
    SweptPlaces(s, now);
    RoundProc(s, now, choice, pid);
  }

  /**
   A process exits with a code: after the next round, its parent has that code for it, unless it was asleep in the
   sweep or is gone.
   */
  lemma CodeDelivered(states: seq<State>, actions: seq<Action>, i: nat, k: nat)
    requires ScheduleRuns.IsRun(states, actions) && i < k < |actions| && actions[i].ExitNow? && actions[k].Round?
    requires forall m :: i < m < k ==> !actions[m].Round?
    ensures var (c, s, t) := (states[i].current, states[k], states[k + 1]);
      && c in s.parents
      && var parent := s.parents[c];
         Exists(s, parent) && (parent in Swept(s, actions[k].now).scheduled || s.waiting[parent].Receptive()) ==>
           && Exists(t, parent) && c in ProcOf(t, parent).childExits
           && ProcOf(t, parent).childExits[c] == actions[i].code
  {
    hide Inv, Enabled, Works, Step, Swept, ProcOf;
    var e := ExitWaits(states, actions, i, k);
    RunInv(states, actions, k);
    assert StepsTo(states[k], actions[k], states[k + 1]);
    ParentOf(states[k], e);
    if Exists(states[k], e.parent) {
      ExitRecorded(states[k], actions[k].now, e, e.parent);
      RoundKeepsExits(states[k], actions[k].now, actions[k].choice, e.parent);
    }
  }
}
