/**
 What holds over whole runs of the scheduler: bounded bypass, delivery of exits, and exact resumption.
 */
module ScheduleRuns {
  import opened Arithmetic
  import opened Clock
  import opened Contexts
  import opened Options
  import opened Scheduling

  /** A run from the start: every operation happens when it can, and does what it does. */
  ghost predicate IsRun(states: seq<State>, actions: seq<Action>) {
    && |states| == |actions| + 1 && states[0] == Start(states[0].live)
    && states[0].live.Valid() && states[0].live.FromKernel()
    && forall i :: 0 <= i < |actions| ==> StepsTo(states[i], actions[i], states[i + 1])
  }

  ghost predicate StepsTo(s: State, a: Action, t: State) {
    Enabled(s, a) && Works(s, a) && t == Step(s, a)
  }

  /** Every reachable state satisfies the invariant, and no operation that can happen there panics. */
  lemma {:induction false} RunInv(states: seq<State>, actions: seq<Action>, k: nat)
    requires IsRun(states, actions) && k <= |actions|
    ensures Inv(states[k]) && forall a :: Enabled(states[k], a) ==> Works(states[k], a)
  {
    hide Inv, Enabled, Works, Step, Start;
    if k == 0 {
      StartInv(states[0].live);
    } else {
      RunInv(states, actions, k - 1);
      assert StepsTo(states[k - 1], actions[k - 1], states[k]);
      StepInv(states[k - 1], actions[k - 1]);
    }
    forall a | Enabled(states[k], a) ensures Works(states[k], a) {
      NothingPanics(states[k], a);
    }
  }

  // Bounded bypass.

  /** The scheduled processes that the next dispatches without a decrease of the ceiling choose from. */
  function Top(s: State): set<nat> {
    set pid | pid in s.scheduled && s.scheduled[pid].counter == s.ceiling
  }

  /** How far a process is below the ceiling. */
  function Depth(s: State, pid: nat): int
    requires pid in s.scheduled
  {
    s.ceiling - s.scheduled[pid].counter
  }

  /** How many processes may be dispatched before the ceiling comes down. */
  function Width(s: State, n: nat): nat {
    if s.maxPriority == s.ceiling then n else |Top(s)|
  }

  /** How many more dispatches of others a scheduled process can see, among at most `n` processes. */
  function Bypasses(s: State, pid: nat, n: nat): int
    requires pid in s.scheduled
  {
    Score(n, Depth(s, pid), Width(s, n))
  }

  function Score(n: int, depth: int, width: int): int {
    n * depth + width
  }

  lemma ScoreBounds(n: int, d: int, w: int)
    requires 1 <= n && 0 <= d <= 5 && 0 <= w <= n && (d > 0 || w > 0)
    ensures 1 <= Score(n, d, w) <= 6 * n
  {
    MulMonotone(d, 5, n);
    if d > 0 {
      MulMonotone(1, d, n);
    }
  }

  lemma ScoreDrops(n: int, d: int, w: int, d': int, w': int)
    requires 0 <= n && 0 <= w && 0 <= d'
    requires (d' <= d - 1 && w' <= n - 1) || (d' == d && w' <= w - 1)
    ensures Score(n, d', w') + 1 <= Score(n, d, w)
  {
    if d' <= d - 1 {
      MulMonotone(d', d - 1, n);
    }
  }

  predicate AtMost(s: State, n: nat) {
    |s.scheduled.Keys + s.waiting.Keys| <= n
  }

  lemma TopSize(s: State, pid: nat, n: nat)
    requires pid in s.scheduled && AtMost(s, n)
    ensures |Top(s)| <= n && 1 <= n && (s.scheduled[pid].counter == s.ceiling ==> 1 <= |Top(s)|)
  {
    SubsetSize(Top(s), s.scheduled.Keys + s.waiting.Keys);
    SubsetSize({pid}, s.scheduled.Keys + s.waiting.Keys);
    if s.scheduled[pid].counter == s.ceiling {
      SubsetSize({pid}, Top(s));
    }
  }

  lemma BypassBounds(s: State, pid: nat, n: nat)
    requires Counters(s) && pid in s.scheduled && AtMost(s, n)
    ensures 1 <= Bypasses(s, pid, n) <= 6 * n
  {
    TopSize(s, pid, n);
    hide Top, Score;
    ScoreBounds(n, Depth(s, pid), Width(s, n));
  }

  /** `t` is `s` but for processes that join with the counter for newcomers. */
  predicate Calm(s: State, t: State, pid: nat)
    requires pid in s.scheduled
  {
    && t.ceiling == s.ceiling && t.maxPriority == s.maxPriority
    && pid in t.scheduled && t.scheduled[pid].counter == s.scheduled[pid].counter
    && forall q :: q in t.scheduled ==>
         || t.scheduled[q].counter == s.maxPriority
         || (q in s.scheduled && t.scheduled[q].counter == s.scheduled[q].counter)
  }

  lemma CalmBypasses(s: State, t: State, pid: nat, n: nat)
    requires pid in s.scheduled && Calm(s, t, pid)
    ensures Bypasses(t, pid, n) <= Bypasses(s, pid, n)
  {
    if s.maxPriority != s.ceiling {
      SubsetSize(Top(t), Top(s));
    }
  }

  lemma CalmStep(s: State, a: Action, pid: nat)
    requires Inv(s) && Enabled(s, a) && Works(s, a) && pid in s.scheduled && !a.Round?
    ensures Calm(s, Step(s, a), pid)
  {
    hide GoneChild, Counters, Waits, Saves, Swept;
  }

  lemma CalmSweep(s: State, now: ClockTime, pid: nat)
    requires Inv(s) && pid in s.scheduled
    ensures Calm(s, Swept(s, now), pid)
  {
    hide Swept, Counters, Family, Waits, Saves;
    forall q | q in Swept(s, now).scheduled
      ensures Swept(s, now).scheduled[q].counter == s.maxPriority
           || (q in s.scheduled && Swept(s, now).scheduled[q].counter == s.scheduled[q].counter)
    {
      SweptKeeps(s, now, q);
    }
    SweptKeeps(s, now, pid);
  }

  lemma WidthAfter(s: State, choice: nat, n: nat)
    requires CanDispatch(s, choice) && AtMost(s, n) && Level(s.scheduled[choice].priority)
    ensures Width(Dispatched(s, choice), n) <= n - 1
    ensures s.scheduled[choice].counter == s.ceiling ==> Width(Dispatched(s, choice), n) == |Top(s)| - 1
  {
    TopAfter(s, choice);
    SubsetSize(TopAt(s, s.scheduled[choice].counter), s.scheduled.Keys + s.waiting.Keys);
    assert s.scheduled[choice].counter == s.ceiling ==> Top(s) == TopAt(s, s.scheduled[choice].counter);
    hide TopAt, Top;
  }

  function TopAt(s: State, counter: nat): set<nat> {
    set pid | pid in s.scheduled && s.scheduled[pid].counter == counter
  }

  lemma TopAfter(s: State, choice: nat)
    requires CanDispatch(s, choice)
    ensures |Top(Dispatched(s, choice))| == |TopAt(s, s.scheduled[choice].counter)| - 1
  {
    var (c, t) := (s.scheduled[choice].counter, Dispatched(s, choice));
    assert Top(t) == TopAt(s, c) - {choice};
    assert choice in TopAt(s, c);
  }

  /** A dispatch of another process narrows the top, or brings the ceiling down. */
  lemma DispatchNarrows(s: State, choice: nat, pid: nat, n: nat)
    requires Places(s) && Counters(s) && pid in s.scheduled && choice != pid && AtMost(s, n)
    requires IsTop(s, choice) && CanDispatch(s, choice)
    ensures var t := Dispatched(s, choice);
      && pid in t.scheduled && Width(t, n) <= n - 1 && 0 <= Depth(t, pid)
      && (Depth(t, pid) <= Depth(s, pid) - 1 || (Depth(t, pid) == Depth(s, pid) && Width(t, n) <= Width(s, n) - 1))
  {
    WidthAfter(s, choice, n);
    hide Top, Width, Places;
    WidthIs(s, n);
    TopSize(s, choice, n);
  }

  lemma WidthIs(s: State, n: nat)
    ensures Width(s, n) == if s.maxPriority == s.ceiling then n else |Top(s)|
  {}

  /** A reset brings a process that was below the ceiling up to the new one. */
  lemma ResetNarrows(s: State, choice: nat, pid: nat, n: nat)
    requires Places(s) && Counters(s) && pid in s.scheduled && choice != pid && AtMost(s, n) && Low(s)
    requires IsTop(Reset(s), choice) && CanDispatch(Reset(s), choice)
    ensures var t := Dispatched(Reset(s), choice);
      && pid in t.scheduled && Width(t, n) <= n - 1 && Depth(t, pid) == 0 && 1 <= Depth(s, pid)
  {
    var u := Reset(s);
    assert u.scheduled.Keys == s.scheduled.Keys;
    WidthAfter(u, choice, n);
  }

  lemma DispatchBypasses(s: State, choice: nat, pid: nat, n: nat)
    requires Places(s) && Counters(s) && pid in s.scheduled && choice != pid && AtMost(s, n)
    requires IsTop(ResetIfLow(s), choice) && CanDispatch(ResetIfLow(s), choice)
    ensures var t := Dispatched(ResetIfLow(s), choice);
      pid in t.scheduled && Bypasses(t, pid, n) + 1 <= Bypasses(s, pid, n)
  {
    if Low(s) {
      ResetNarrows(s, choice, pid, n);
    } else {
      DispatchNarrows(s, choice, pid, n);
    }
    var t := Dispatched(ResetIfLow(s), choice);
    hide Dispatched, Reset, Places, Counters, Depth, Width, Score, IsTop;
    ScoreDrops(n, Depth(s, pid), Width(s, n), Depth(t, pid), Width(t, n));
  }

  /** Whether the operation dispatches a process. */
  predicate Dispatches(s: State, a: Action) {
    a.Round? && Ready(s, a.now).scheduled != map[]
  }

  predicate DispatchesPid(s: State, a: Action, pid: nat) {
    Dispatches(s, a) && a.choice == pid
  }

  /** One operation that is not a dispatch of the process: it stays scheduled, and its bypasses are used up. */
  lemma StepBypasses(s: State, a: Action, pid: nat, n: nat)
    requires Inv(s) && Enabled(s, a) && Works(s, a) && pid in s.scheduled && AtMost(s, n)
    requires !DispatchesPid(s, a, pid)
    ensures var t := Step(s, a);
      pid in t.scheduled && Bypasses(t, pid, n) + (if Dispatches(s, a) then 1 else 0) <= Bypasses(s, pid, n)
  {
    hide Bypasses, Calm, Inv, Swept, Dispatched, ResetIfLow, SweepWorks, CanDispatch, IsTop;
    if !a.Round? {
      CalmStep(s, a, pid);
      CalmKeeps(s, Step(s, a), pid);
      CalmBypasses(s, Step(s, a), pid, n);
    } else {
      var u := Swept(s, a.now);
      CalmSweep(s, a.now, pid);
      CalmKeeps(s, u, pid);
      CalmBypasses(s, u, pid, n);
      SweptInv(s, a.now);
      SweptAtMost(s, a.now, n);
      InvParts(u);
      ResetKeys(u);
      DispatchBypasses(u, a.choice, pid, n);
    }
  }

  lemma CalmKeeps(s: State, t: State, pid: nat)
    requires pid in s.scheduled && Calm(s, t, pid)
    ensures pid in t.scheduled
  {}

  lemma InvParts(s: State)
    requires Inv(s)
    ensures Places(s) && Counters(s)
  {}

  lemma ResetKeys(s: State)
    ensures ResetIfLow(s).scheduled.Keys == s.scheduled.Keys
  {}

  lemma SweptAtMost(s: State, now: ClockTime, n: nat)
    requires AtMost(s, n)
    ensures AtMost(Swept(s, now), n)
  {
    hide Swept, Woken;
    var t := Swept(s, now);
    assert t.scheduled.Keys + t.waiting.Keys == s.scheduled.Keys + s.waiting.Keys;
  }

  function CountDispatches(states: seq<State>, actions: seq<Action>, i: nat, k: nat): nat
    requires i <= k <= |actions| && k <= |states|
  {
    if i == k then 0
    else CountDispatches(states, actions, i, k - 1) + if Dispatches(states[k - 1], actions[k - 1]) then 1 else 0
  }

  lemma {:induction false} RunBypasses(states: seq<State>, actions: seq<Action>, i: nat, k: nat, pid: nat, n: nat)
    requires IsRun(states, actions) && i <= k <= |actions| && pid in states[i].scheduled
    requires forall j :: i <= j <= k ==> AtMost(states[j], n)
    requires forall j :: i <= j < k ==> !DispatchesPid(states[j], actions[j], pid)
    ensures pid in states[k].scheduled
    ensures Bypasses(states[k], pid, n) + CountDispatches(states, actions, i, k) <= Bypasses(states[i], pid, n)
  {
    hide Bypasses, Inv, Enabled, Works, Step, AtMost, DispatchesPid;
    if i < k {
      RunBypasses(states, actions, i, k - 1, pid, n);
      RunInv(states, actions, k - 1);
      assert StepsTo(states[k - 1], actions[k - 1], states[k]);
      StepBypasses(states[k - 1], actions[k - 1], pid, n);
    }
  }

  /**
   Bounded bypass: among any 6n consecutive dispatches with at most n processes around, a process that is
   scheduled at the first of them is dispatched, whatever else happens in between.
   */
  lemma BoundedBypass(states: seq<State>, actions: seq<Action>, i: nat, k: nat, pid: nat, n: nat)
    requires IsRun(states, actions) && i <= k <= |actions| && pid in states[i].scheduled
    requires forall j :: i <= j <= k ==> AtMost(states[j], n)
    requires CountDispatches(states, actions, i, k) >= 6 * n
    ensures exists j :: i <= j < k && DispatchesPid(states[j], actions[j], pid)
  {
    hide Bypasses, Inv, DispatchesPid;
    if forall j :: i <= j < k ==> !DispatchesPid(states[j], actions[j], pid) {
      RunBypasses(states, actions, i, k, pid, n);
      RunInv(states, actions, i);
      RunInv(states, actions, k);
      InvParts(states[i]);
      InvParts(states[k]);
      BypassBounds(states[i], pid, n);
      BypassBounds(states[k], pid, n);
    }
  }

  // Delivery of exits.

  lemma {:induction false} ExitsOfCode(exited: seq<Exit>, e: Exit)
    requires e in exited && forall i, j :: 0 <= i < j < |exited| ==> exited[i].pid != exited[j].pid
    ensures e.pid in ExitsOf(exited, e.parent) && ExitsOf(exited, e.parent)[e.pid] == e.code
  {
    var (rest, last) := (exited[..|exited| - 1], exited[|exited| - 1]);
    assert exited == rest + [last];
    if last != e {
      assert last.pid != e.pid;
      ExitsOfCode(rest, e);
    }
  }

  lemma KnownChildren(s: State, pid: nat, c: nat)
    requires Inv(s) && Exists(s, pid) && c in ProcOf(s, pid).childExits
    ensures GoneChild(s, pid, c)
  {
    hide GoneChild, Places, Counters, Waits, Saves;
    assert Known(s, pid, ProcOf(s, pid));
  }

  lemma ParentOf(s: State, e: Exit)
    requires Inv(s) && e in s.exited
    ensures e.pid in s.parents && s.parents[e.pid] == e.parent && Exiting(s, e.pid)
    ensures forall i, j :: 0 <= i < j < |s.exited| ==> s.exited[i].pid != s.exited[j].pid
  {
    hide Known, Counters, Waits, Saves;
  }

  /** Before the sweep that comes to it, no process knows of an exit. */
  lemma NotYetRecorded(s: State, e: Exit, q: nat)
    requires Inv(s) && e in s.exited && Exists(s, q)
    ensures e.pid !in ProcOf(s, q).childExits
  {
    hide Inv;
    ParentOf(s, e);
    if e.pid in ProcOf(s, q).childExits {
      KnownChildren(s, q, e.pid);
    }
  }

  /** A parent that is not asleep in the sweep learns of the exit, and nobody else does. */
  lemma ExitRecorded(s: State, now: ClockTime, e: Exit, q: nat)
    requires Inv(s) && e in s.exited && Exists(s, q)
    ensures Exists(Swept(s, now), q)
    ensures e.parent == q && (q in Swept(s, now).scheduled || s.waiting[q].Receptive()) ==>
      var exits := ProcOf(Swept(s, now), q).childExits;
      e.pid in exits && exits[e.pid] == e.code
    ensures e.parent != q ==> e.pid !in ProcOf(Swept(s, now), q).childExits
  {
    hide Swept, ExitsOf, Inv, Places;
    SweptInv(s, now);
    ParentOf(s, e);
    assert Places(s) by { InvParts(s); }
    SweptChildren(s, now, q);
    if e.parent == q {
      ExitsOfCode(s.exited, e);
    } else if e.pid in ProcOf(Swept(s, now), q).childExits {
      KnownChildren(Swept(s, now), q, e.pid);
    }
  }

  /** A process that is gone stays gone, so no later sweep comes to its exit again. */
  predicate Gone(s: State, c: nat) {
    c in s.parents && !Exists(s, c) && !Exiting(s, c)
  }

  lemma GoneStep(s: State, a: Action, c: nat)
    requires Inv(s) && Enabled(s, a) && Works(s, a) && Gone(s, c)
    ensures Gone(Step(s, a), c)
  {
    hide Counters, Waits, Saves, Known, Swept, Places, IsTop, IsNew, Level;
    if a.Round? {
      SweptPlaces(s, a.now);
      ResetKeys(Swept(s, a.now));
    }
  }

  lemma {:induction false} GoneForever(states: seq<State>, actions: seq<Action>, i: nat, k: nat, c: nat)
    requires IsRun(states, actions) && i <= k <= |actions| && Gone(states[i], c)
    ensures Gone(states[k], c)
  {
    hide Inv, Enabled, Works, Step, Gone;
    if i < k {
      GoneForever(states, actions, i, k - 1, c);
      RunInv(states, actions, k - 1);
      assert StepsTo(states[k - 1], actions[k - 1], states[k]);
      GoneStep(states[k - 1], actions[k - 1], c);
    }
  }

  /** The sweep leaves every exited process gone. */
  lemma SweptGone(s: State, now: ClockTime, e: Exit)
    requires Inv(s) && e in s.exited
    ensures Gone(Swept(s, now), e.pid)
  {
    hide Swept, Woken, Counters, Waits, Saves, Known;
    SweptPlaces(s, now);
  }

  // Waits for children.

  lemma {:induction false} FoundIs(s: State, exited: seq<Exit>, pid: nat, c: nat)
    requires Found(s, exited, pid, c).Some?
    ensures exists e :: e in exited && e.pid == c && Found(s, exited, pid, c) == Some(e.code)
  {
    var (rest, last) := (exited[..|exited| - 1], exited[|exited| - 1]);
    assert exited == rest + [last];
    if !(last.pid == c && !TakenBefore(s, last, pid)) {
      FoundIs(s, rest, pid, c);
    }
  }

  /** A wait of a parent for its own child. */
  predicate AwaitsChild(s: State, pid: nat, c: nat) {
    pid in s.waiting && s.waiting[pid].status == WaitingForPid(c) && c in s.parents && s.parents[c] == pid
  }

  /** The round ends the wait with the child's exit code in `rax`, and with all else as it was suspended. */
  predicate Answers(s: State, a: Action, t: State, pid: nat, c: nat)
    requires pid in s.waiting
  {
    && a.Round? && Exists(t, pid)
    && exists e ::
         && e in s.exited && e.pid == c && e.parent == pid
         && ProcOf(t, pid).context ==
            s.waiting[pid].context.(regs := s.waiting[pid].context.regs.(rax := AsU64(e.code)))
  }

  /** Never stranded: the child is alive or about to be swept. */
  lemma ChildIsThere(s: State, pid: nat, c: nat)
    requires Inv(s) && AwaitsChild(s, pid, c)
    ensures Exists(s, c) || Exiting(s, c)
  {
    hide Places, Counters, Family, Saves;
  }

  lemma SweepAnswers(s: State, now: ClockTime, pid: nat, c: nat)
    requires Inv(s) && AwaitsChild(s, pid, c)
    ensures var t := Swept(s, now);
      if Exiting(s, c) then pid in t.scheduled && Answers(s, Round(now, 0), t, pid, c) else AwaitsChild(t, pid, c)
  {
    hide Swept, Counters, Waits, Saves, Known, ExitsOf, Found;
    SweptIs(s, now, pid);
    if e :| e in s.exited && e.pid == c {
      FoundOwn(s, s.exited, pid, e);
    } else if Found(s, s.exited, pid, c).Some? {
      FoundIs(s, s.exited, pid, c);
    }
  }

  lemma RoundContext(s: State, now: ClockTime, choice: nat, pid: nat)
    requires Enabled(s, Round(now, choice)) && Works(s, Round(now, choice))
    requires Exists(Swept(s, now), pid) && Places(Swept(s, now))
    ensures var (u, t) := (Swept(s, now), Step(s, Round(now, choice)));
      && Exists(t, pid) && ProcOf(t, pid).context == ProcOf(u, pid).context && t.saved == u.saved
      && (pid in u.waiting ==> pid in t.waiting && t.waiting[pid] == u.waiting[pid])
      && t.parents == s.parents
  {
    hide Swept, SweepWorks, Low, IsTop, ToContext, RunsCurrent;
    ResetKeys(Swept(s, now));
  }

  /** While a parent waits for its child, each step either leaves it waiting or is the round that answers. */
  lemma AwaitStep(s: State, a: Action, pid: nat, c: nat)
    requires Inv(s) && Enabled(s, a) && Works(s, a) && AwaitsChild(s, pid, c)
    ensures AwaitsChild(Step(s, a), pid, c) || Answers(s, a, Step(s, a), pid, c)
    ensures a.Round? && Exiting(s, c) ==> Answers(s, a, Step(s, a), pid, c)
  {
    hide Swept, Inv, Step, Works, Enabled, Places, Exists;
    if a.Round? {
      SweepAnswers(s, a.now, pid, c);
      assert Places(Swept(s, a.now)) by {
        InvParts(s);
        SweptPlaces(s, a.now);
      }
      SweptExists(s, a.now, pid);
      RoundContext(s, a.now, a.choice, pid);
    } else {
      AwaitOtherStep(s, a, pid, c);
    }
  }

  lemma SweptExists(s: State, now: ClockTime, pid: nat)
    requires pid in s.waiting
    ensures Exists(Swept(s, now), pid)
    ensures pid in Swept(s, now).scheduled ==> ProcOf(Swept(s, now), pid) == Swept(s, now).scheduled[pid]
  {
    hide Swept, Woken;
  }

  lemma AwaitOtherStep(s: State, a: Action, pid: nat, c: nat)
    requires Inv(s) && Enabled(s, a) && Works(s, a) && AwaitsChild(s, pid, c) && !a.Round?
    ensures AwaitsChild(Step(s, a), pid, c)
  {
    hide Counters, Waits, Saves, Swept, GoneChild, Low;
  }

  /**
   No parent is stranded: from any point of any run on, a parent that waits for its own child goes on
   waiting for a child that is alive or exiting, until a round answers with that child's exit code.
   */
  lemma {:induction false} NeverStranded(states: seq<State>, actions: seq<Action>, i: nat, k: nat, pid: nat, c: nat)
    requires IsRun(states, actions) && i <= k <= |actions| && AwaitsChild(states[i], pid, c)
    ensures
      || (AwaitsChild(states[k], pid, c) && (Exists(states[k], c) || Exiting(states[k], c)))
      || exists j :: i <= j < k && AwaitsChild(states[j], pid, c)
           && Answers(states[j], actions[j], states[j + 1], pid, c)
  {
    hide Inv, Enabled, Works, Step, AwaitsChild, Answers, Exiting;
    RunInv(states, actions, k);
    if i < k {
      NeverStranded(states, actions, i, k - 1, pid, c);
      if AwaitsChild(states[k - 1], pid, c) {
        RunInv(states, actions, k - 1);
        assert StepsTo(states[k - 1], actions[k - 1], states[k]);
        AwaitStep(states[k - 1], actions[k - 1], pid, c);
        assert k - 1 + 1 == k;
      }
    }
    if AwaitsChild(states[k], pid, c) {
      ChildIsThere(states[k], pid, c);
    }
  }

  // Resumption.

  /** The operation takes the processor from the current process. */
  predicate Suspends(s: State, a: Action) {
    InProcess(s) && (a.Yield? || a.Sleep? || (a.WaitFor? && Exists(s, a.pid)) || a.ExitNow?)
  }

  /** The kernel goes on with the state it had when it entered the process. */
  lemma SuspendRestoresKernel(s: State, a: Action)
    requires Inv(s) && Enabled(s, a) && Works(s, a) && Suspends(s, a)
    ensures Step(s, a).live == s.kernel
  {
    hide Places, Counters, Family, Waits;
  }

  lemma KernelKept(s: State, a: Action)
    requires Inv(s) && Enabled(s, a) && Works(s, a) && InProcess(s) && !Suspends(s, a)
    ensures InProcess(Step(s, a)) && Step(s, a).kernel == s.kernel
  {
    hide Places, Counters, Family, Waits, Saves;
  }

  lemma EnterTakesKernel(s: State)
    requires Inv(s) && Enabled(s, Enter) && Works(s, Enter)
    ensures InProcess(Step(s, Enter)) && Step(s, Enter).kernel == s.live
    ensures s.current in s.saved && Step(s, Enter).live == ToLive(s.saved[s.current].Resumed())
  {
    hide Counters, Family, Waits;
  }

  /** From one entry into a process to the end of its turn, the kernel's state is kept and then restored. */
  lemma {:induction false} KernelResumes(states: seq<State>, actions: seq<Action>, i: nat, j: nat)
    requires IsRun(states, actions) && i < j < |actions| && actions[i] == Enter
    requires forall m :: i < m < j ==> !Suspends(states[m], actions[m])
    ensures InProcess(states[j]) && states[j].kernel == states[i].live
    ensures Suspends(states[j], actions[j]) ==> states[j + 1].live == states[i].live
  {
    hide Inv, Enabled, Works, Suspends, Step;
    assert StepsTo(states[j - 1], actions[j - 1], states[j]);
    assert StepsTo(states[j], actions[j], states[j + 1]);
    RunInv(states, actions, j - 1);
    RunInv(states, actions, j);
    if i < j - 1 {
      KernelResumes(states, actions, i, j - 1);
      KernelKept(states[j - 1], actions[j - 1]);
    } else {
      EnterTakesKernel(states[i]);
    }
    if Suspends(states[j], actions[j]) {
      SuspendRestoresKernel(states[j], actions[j]);
    }
  }

  predicate AwaitsAny(s: State, pid: nat) {
    pid in s.waiting && s.waiting[pid].status.WaitingForPid?
  }

  lemma SuspendSaves(s: State, a: Action)
    requires Inv(s) && Enabled(s, a) && Works(s, a) && Suspends(s, a) && !a.ExitNow?
    ensures var t := Step(s, a);
      && Exists(t, s.current) && s.current in t.saved && t.saved[s.current] == Saved(ToContext(s.live), None)
      && (!a.WaitFor? ==> !AwaitsAny(t, s.current))
  {
    hide Counters, Family, Waits, Saves, Swept;
  }

  lemma SavedStep(s: State, a: Action, pid: nat)
    requires Inv(s) && Enabled(s, a) && Works(s, a) && Exists(s, pid) && pid in s.saved
    requires !(Suspends(s, a) && s.current == pid)
    ensures var t := Step(s, a);
      && Exists(t, pid) && pid in t.saved && t.saved[pid].context == s.saved[pid].context
      && (!AwaitsAny(s, pid) ==> !AwaitsAny(t, pid) && t.saved[pid].answer == s.saved[pid].answer)
  {
    hide Swept, Inv, Step, Works, Enabled, Places, AwaitsAny, Suspends, Exists;
    if a.Round? {
      SweptAnswer(s, a.now, pid);
      RoundContext(s, a.now, a.choice, pid);
      RoundAwaits(s, a.now, a.choice, pid);
    } else {
      SavedOtherStep(s, a, pid);
    }
  }

  lemma SavedOtherStep(s: State, a: Action, pid: nat)
    requires Inv(s) && Enabled(s, a) && Works(s, a) && Exists(s, pid) && pid in s.saved && !a.Round?
    requires !(Suspends(s, a) && s.current == pid)
    ensures var t := Step(s, a);
      && Exists(t, pid) && pid in t.saved && t.saved[pid] == s.saved[pid]
      && (!AwaitsAny(s, pid) ==> !AwaitsAny(t, pid))
  {
    hide Counters, Waits, Saves, Swept, GoneChild;
  }

  lemma SweptAnswer(s: State, now: ClockTime, pid: nat)
    requires Inv(s) && Exists(s, pid) && pid in s.saved
    ensures var t := Swept(s, now);
      && Places(t) && Exists(t, pid) && pid in t.saved && t.saved[pid].context == s.saved[pid].context
      && (!AwaitsAny(s, pid) ==> !AwaitsAny(t, pid) && t.saved[pid].answer == s.saved[pid].answer)
  {
    hide Swept, Woken, Counters, Family, Waits, Saves, Found, ExitsOf;
    SweptPlaces(s, now);
    SweptIs(s, now, pid);
    SweptKeeps(s, now, pid);
  }

  lemma RoundAwaits(s: State, now: ClockTime, choice: nat, pid: nat)
    requires Enabled(s, Round(now, choice)) && Works(s, Round(now, choice))
    ensures AwaitsAny(Step(s, Round(now, choice)), pid) ==> AwaitsAny(Swept(s, now), pid)
  {
    hide Swept, SweepWorks;
  }

  /** What the record says of a process until its next suspension. */
  lemma {:induction false} SavedKept(states: seq<State>, actions: seq<Action>, i: nat, k: nat, pid: nat)
    requires IsRun(states, actions) && i < k <= |actions| && states[i].current == pid
    requires Suspends(states[i], actions[i]) && !actions[i].ExitNow?
    requires forall m :: i < m < k ==> !(Suspends(states[m], actions[m]) && states[m].current == pid)
    ensures Exists(states[k], pid) && pid in states[k].saved
    ensures states[k].saved[pid].context == ToContext(states[i].live)
    ensures !actions[i].WaitFor? ==> states[k].saved[pid].answer == None && !AwaitsAny(states[k], pid)
  {
    hide Inv, Enabled, Works, Suspends, Step, AwaitsAny;
    assert StepsTo(states[k - 1], actions[k - 1], states[k]);
    RunInv(states, actions, k - 1);
    if i < k - 1 {
      SavedKept(states, actions, i, k - 1, pid);
      SavedStep(states[k - 1], actions[k - 1], pid);
    } else {
      SuspendSaves(states[i], actions[i]);
    }
  }

  /**
   A process goes on with exactly the state it was suspended with, whatever happened in between; only a
   wait for a process may come back with another value in `rax`.
   */
  lemma ProcessResumes(states: seq<State>, actions: seq<Action>, i: nat, j: nat, pid: nat)
    requires IsRun(states, actions) && i < j < |actions| && states[i].current == pid
    requires Suspends(states[i], actions[i]) && !actions[i].ExitNow?
    requires forall m :: i < m < j ==> !(Suspends(states[m], actions[m]) && states[m].current == pid)
    requires actions[j] == Enter && states[j].current == pid
    ensures var (before, after) := (states[i].live, states[j + 1].live);
      && after == before.(regs := before.regs.(rax := after.regs.rax))
      && (!actions[i].WaitFor? ==> after == before)
  {
    hide Inv, Enabled, Works, Suspends, Step;
    SavedKept(states, actions, i, j, pid);
    RunInv(states, actions, i);
    RunInv(states, actions, j);
    assert StepsTo(states[j], actions[j], states[j + 1]);
    EnterTakesKernel(states[j]);
    assert states[i].live.Valid() by { LiveIsValid(states[i]); }
  }

  lemma LiveIsValid(s: State)
    requires Inv(s)
    ensures s.live.Valid()
  {}
}
