/**
 The scheduler itself: its collections and the processor's state, changed in place by each operation.
 Every operation is shown to be the step of the same name.
 */
module Scheduler {
  import opened Options
  import opened Clock
  import opened Contexts
  import opened Scheduling

  /** The exits whose parents are not among the receptive processes of `done`. */
  function Left(s: State, exited: seq<Exit>, done: set<nat>): seq<Exit>
    requires done <= s.waiting.Keys
  {
    if exited == [] then []
    else
      var (rest, e) := (Left(s, exited[..|exited| - 1], done), exited[|exited| - 1]);
      if e.parent in done && s.waiting[e.parent].Receptive() then rest else rest + [e]
  }

  /** The exits of processes with another parent. */
  function Others(exited: seq<Exit>, parent: nat): seq<Exit> {
    if exited == [] then []
    else
      var (rest, e) := (Others(exited[..|exited| - 1], parent), exited[|exited| - 1]);
      if e.parent == parent then rest else rest + [e]
  }

  /** The last exit of a process. */
  function CodeOf(exited: seq<Exit>, pid: nat): Option<int> {
    if exited == [] then None
    else if exited[|exited| - 1].pid == pid then Some(exited[|exited| - 1].code)
    else CodeOf(exited[..|exited| - 1], pid)
  }

  function Smaller(all: set<nat>, pid: nat): set<nat> {
    set k | k in all && k < pid
  }

  lemma {:induction false} LeftNext(s: State, exited: seq<Exit>, done: set<nat>, pid: nat)
    requires done <= s.waiting.Keys && pid in s.waiting && pid !in done
    ensures s.waiting[pid].Receptive() ==> Left(s, exited, done + {pid}) == Others(Left(s, exited, done), pid)
    ensures !s.waiting[pid].Receptive() ==> Left(s, exited, done + {pid}) == Left(s, exited, done)
  {
    if exited != [] {
      var (rest, e) := (exited[..|exited| - 1], exited[|exited| - 1]);
      LeftNext(s, rest, done, pid);
      var left := Left(s, rest, done);
      assert (left + [e])[..|left + [e]| - 1] == left;
    }
  }

  lemma {:induction false} LeftFound(s: State, exited: seq<Exit>, done: set<nat>, pid: nat, awaited: nat)
    requires done == Smaller(s.waiting.Keys, pid)
    ensures Found(s, exited, pid, awaited) == CodeOf(Left(s, exited, done), awaited)
  {
    if exited != [] {
      var (rest, e) := (exited[..|exited| - 1], exited[|exited| - 1]);
      LeftFound(s, rest, done, pid, awaited);
      var left := Left(s, rest, done);
      assert (left + [e])[..|left + [e]| - 1] == left;
    }
  }

  lemma {:induction false} LeftExits(s: State, exited: seq<Exit>, done: set<nat>, pid: nat)
    requires done <= s.waiting.Keys
    ensures ExitsOf(Left(s, exited, done), pid) ==
      if pid in done && s.waiting[pid].Receptive() then map[] else ExitsOf(exited, pid)
  {
    if exited != [] {
      var (rest, e) := (exited[..|exited| - 1], exited[|exited| - 1]);
      LeftExits(s, rest, done, pid);
      var left := Left(s, rest, done);
      assert (left + [e])[..|left + [e]| - 1] == left;
    }
  }

  lemma {:induction false} Least(a: set<nat>) returns (k: nat)
    requires a != {}
    ensures k in a && forall j :: j in a ==> k <= j
    decreases |a|
  {
    var x :| x in a;
    assert forall j :: j in a ==> j == x || j in a - {x};
    k := x;
    if a - {x} != {} {
      k := Least(a - {x});
      k := if x <= k then x else k;
    }
  }

  function WithRax(c: Context, rax: nat): Context {
    c.(regs := c.regs.(rax := rax))
  }

  /** The context of a process that waits for `awaited`, after some exits. */
  function ContextAfter(c: Context, status: Status, exited: seq<Exit>): Context {
    if status.WaitingForPid? && CodeOf(exited, status.pid).Some?
    then WithRax(c, AsU64(CodeOf(exited, status.pid).value)) else c
  }

  lemma OneMoreExit(exited: seq<Exit>, i: nat, pid: nat, awaited: nat, c: Context, status: Status)
    requires i < |exited|
    ensures var e := exited[i];
      && Others(exited[..i + 1], pid) == Others(exited[..i], pid) + (if e.parent == pid then [] else [e])
      && ExitsOf(exited[..i + 1], pid) ==
         (if e.parent == pid then ExitsOf(exited[..i], pid)[e.pid := e.code] else ExitsOf(exited[..i], pid))
      && CodeOf(exited[..i + 1], awaited) == (if e.pid == awaited then Some(e.code) else CodeOf(exited[..i], awaited))
      && ContextAfter(c, status, exited[..i + 1]) ==
         (if status == WaitingForPid(e.pid) then WithRax(ContextAfter(c, status, exited[..i]), AsU64(e.code))
          else ContextAfter(c, status, exited[..i]))
  {
    assert exited[..i + 1][..i] == exited[..i];
  }

  /** Gives a process the exits of its children, and the code it waits for; returns the exits that are left. */
  method Deliver(pid: nat, p: Proc, exited: seq<Exit>) returns (p': Proc, woken: bool, rest: seq<Exit>)
    requires p.Receptive()
    ensures rest == Others(exited, pid)
    ensures woken <==> p.status.WaitingForPid? && CodeOf(exited, p.status.pid).Some?
    ensures p' == p.(childExits := p.childExits + ExitsOf(exited, pid),
                     context := ContextAfter(p.context, p.status, exited))
  {
    hide ContextAfter, ExitsOf, Others, CodeOf, WithRax;
    var (children, context, awaited) := (p.childExits, p.context, if p.status.WaitingForPid? then p.status.pid else 0);
    woken, rest := false, [];
    var i := 0;
    NoExits(pid, awaited, context, p.status);
    while i < |exited|
      invariant i <= |exited| && rest == Others(exited[..i], pid)
      invariant woken <==> p.status.WaitingForPid? && CodeOf(exited[..i], awaited).Some?
      invariant children == p.childExits + ExitsOf(exited[..i], pid)
      invariant context == ContextAfter(p.context, p.status, exited[..i])
    {
      var e := exited[i];
      OneMoreExit(exited, i, pid, awaited, p.context, p.status);
      if e.parent == pid {
        children := children[e.pid := e.code];
      } else {
        rest := rest + [e];
      }
      if p.status.WaitingForPid? && p.status.pid == e.pid {
        woken := true;
        context := WithRax(context, AsU64(e.code));
      }
      i := i + 1;
    }
    assert exited[..i] == exited;
    p' := p.(childExits := children, context := context);
  }

  lemma NoExits(pid: nat, awaited: nat, c: Context, status: Status)
    ensures Others([], pid) == [] && ExitsOf([], pid) == map[] && CodeOf([], awaited) == None
    ensures ContextAfter(c, status, []) == c
  {}

  /** A process after the first pass of the sweep, before it is rescheduled. */
  ghost function PassedProc(s: State, now: ClockTime, pid: nat): Proc
    requires pid in s.waiting
  {
    if s.waiting[pid].Receptive() then WithAnswer(Heard(s, pid, s.waiting[pid]), Answer(s, pid)) else s.waiting[pid]
  }

  /** The first pass has come through the processes of `done`: what is left, woken and kept. */
  ghost predicate Passed(s: State, now: ClockTime, done: set<nat>, waiting: map<nat, Proc>, woken: map<nat, Proc>,
                         exited: seq<Exit>)
  {
    && done <= s.waiting.Keys
    && woken.Keys == Woken(s, now) * done && waiting.Keys == s.waiting.Keys - woken.Keys
    && (forall pid :: pid in woken ==> woken[pid] == PassedProc(s, now, pid))
    && (forall pid :: pid in waiting ==>
         waiting[pid] == if pid in done then PassedProc(s, now, pid) else s.waiting[pid])
    && exited == Left(s, s.exited, done)
  }

  /** One receptive process is passed. */
  lemma PassReceptive(s: State, now: ClockTime, done: set<nat>, pid: nat, exited: seq<Exit>)
    requires done == Smaller(s.waiting.Keys, pid) && pid in s.waiting && s.waiting[pid].Receptive()
    requires exited == Left(s, s.exited, done)
    ensures var p := s.waiting[pid];
      && PassedProc(s, now, pid) == p.(childExits := p.childExits + ExitsOf(exited, pid),
                                       context := ContextAfter(p.context, p.status, exited))
      && (Wakes(s, now, pid) <==> p.status.WaitingForPid? && CodeOf(exited, p.status.pid).Some?)
      && Others(exited, pid) == Left(s, s.exited, done + {pid})
  {
    LeftNext(s, s.exited, done, pid);
    LeftExits(s, s.exited, done, pid);
    hide Left, Others, ExitsOf, Found, CodeOf;
    if s.waiting[pid].status.WaitingForPid? {
      LeftFound(s, s.exited, done, pid, s.waiting[pid].status.pid);
    }
  }

  lemma PassOther(s: State, now: ClockTime, done: set<nat>, pid: nat)
    requires done <= s.waiting.Keys && pid in s.waiting && pid !in done && !s.waiting[pid].Receptive()
    requires s.waiting[pid].status != Scheduled
    ensures PassedProc(s, now, pid) == s.waiting[pid]
    ensures s.waiting[pid].status.WaitingForTime?
    ensures Wakes(s, now, pid) <==> s.waiting[pid].status.deadline.AtMost(now)
    ensures Left(s, s.exited, done + {pid}) == Left(s, s.exited, done)
  {
    LeftNext(s, s.exited, done, pid);
  }

  /** `done` comes before `pending`, and they make up `all`. */
  ghost predicate Before(all: set<nat>, done: set<nat>, pending: set<nat>) {
    && done !! pending && all == done + pending
    && forall k, j :: k in done && j in pending ==> k < j
  }

  lemma PickLeast(all: set<nat>, done: set<nat>, pending: set<nat>, pid: nat)
    requires Before(all, done, pending) && pid in pending && forall j :: j in pending ==> pid <= j
    ensures done == Smaller(all, pid) && done <= all && pid in all && pid !in done
    ensures Before(all, done + {pid}, pending - {pid})
  {}

  lemma PassedAt(s: State, now: ClockTime, done: set<nat>, waiting: map<nat, Proc>, woken: map<nat, Proc>,
                 exited: seq<Exit>, pid: nat)
    requires Passed(s, now, done, waiting, woken, exited) && pid in s.waiting && pid !in done
    ensures pid in waiting && waiting[pid] == s.waiting[pid] && exited == Left(s, s.exited, done)
  {}

  lemma PassStep(s: State, now: ClockTime, done: set<nat>, waiting: map<nat, Proc>, woken: map<nat, Proc>,
                 exited: seq<Exit>, pid: nat, p: Proc, left: seq<Exit>)
    requires Passed(s, now, done, waiting, woken, exited) && pid in s.waiting && pid !in done
    requires p == PassedProc(s, now, pid) && left == Left(s, s.exited, done + {pid})
    ensures Wakes(s, now, pid) ==> Passed(s, now, done + {pid}, waiting - {pid}, woken[pid := p], left)
    ensures !Wakes(s, now, pid) ==> Passed(s, now, done + {pid}, waiting[pid := p], woken, left)
  {
    hide Left, PassedProc, Wakes;
  }

  lemma PassEither(s: State, now: ClockTime, done: set<nat>, waiting: map<nat, Proc>, woken: map<nat, Proc>,
                   exited: seq<Exit>, pid: nat)
    requires Passed(s, now, done, waiting, woken, exited) && pid in s.waiting && pid !in done
    ensures var (p, left) := (PassedProc(s, now, pid), Left(s, s.exited, done + {pid}));
      if Wakes(s, now, pid) then Passed(s, now, done + {pid}, waiting - {pid}, woken[pid := p], left)
      else Passed(s, now, done + {pid}, waiting[pid := p], woken, left)
  {
    PassStep(s, now, done, waiting, woken, exited, pid, PassedProc(s, now, pid), Left(s, s.exited, done + {pid}));
  }

  /** What the first pass does to one process, and whether it wakes it. */
  method PassOne(ghost s: State, now: ClockTime, ghost done: set<nat>, pid: nat, p: Proc, exited: seq<Exit>)
    returns (p': Proc, wakes: bool, left: seq<Exit>)
    requires pid in s.waiting && p == s.waiting[pid] && p.status != Status.Scheduled
    requires done == Smaller(s.waiting.Keys, pid) && done <= s.waiting.Keys && pid !in done
    requires exited == Left(s, s.exited, done)
    ensures p' == PassedProc(s, now, pid) && wakes == Wakes(s, now, pid) && left == Left(s, s.exited, done + {pid})
  {
    hide Left, PassedProc, Wakes, CodeOf, Others, ContextAfter, ExitsOf, Smaller;
    if p.Receptive() {
      PassReceptive(s, now, done, pid, exited);
      p', wakes, left := Deliver(pid, p, exited);
    } else {
      PassOther(s, now, done, pid);
      p', wakes, left := p, p.status.deadline.AtMost(now), exited;
    }
  }

  /** The first pass over one process, in all that it changes. */
  method PassStepFor(ghost s: State, now: ClockTime, ghost done: set<nat>, pid: nat, waiting: map<nat, Proc>,
                     woken: map<nat, Proc>, exited: seq<Exit>)
    returns (waiting': map<nat, Proc>, woken': map<nat, Proc>, left: seq<Exit>)
    requires pid in s.waiting && pid in waiting && waiting[pid] == s.waiting[pid]
      && s.waiting[pid].status != Status.Scheduled
    requires done == Smaller(s.waiting.Keys, pid) && done <= s.waiting.Keys && pid !in done
    requires Passed(s, now, done, waiting, woken, exited) && exited == Left(s, s.exited, done)
    ensures Passed(s, now, done + {pid}, waiting', woken', left)
  {
    hide Smaller, Passed, Left, PassedProc, Wakes;
    PassEither(s, now, done, waiting, woken, exited, pid);
    var p, wakes;
    p, wakes, left := PassOne(s, now, done, pid, waiting[pid], exited);
    if wakes {
      waiting', woken' := waiting - {pid}, woken[pid := p];
    } else {
      waiting', woken' := waiting[pid := p], woken;
    }
  }

  /** The first pass over all processes, in the order of their ids. */
  method PassAll(ghost s: State, now: ClockTime, waiting: map<nat, Proc>, exited: seq<Exit>)
    returns (waiting': map<nat, Proc>, woken: map<nat, Proc>, left: seq<Exit>)
    requires waiting == s.waiting && exited == s.exited
    requires forall pid :: pid in waiting ==> waiting[pid].status != Status.Scheduled
    ensures Passed(s, now, s.waiting.Keys, waiting', woken, left)
  {
    hide Before, Smaller, Passed, Left, PassedProc, Wakes;
    var pending := waiting.Keys;
    waiting', woken, left := waiting, map[], exited;
    NonePassed(s, now);
    ghost var done := {};
    while pending != {}
      invariant Before(s.waiting.Keys, done, pending) && Passed(s, now, done, waiting', woken, left)
      decreases |pending|
    {
      ghost var least := Least(pending);
      var pid :| pid in pending && forall j :: j in pending ==> pid <= j;
      PickLeast(s.waiting.Keys, done, pending, pid);
      PassedAt(s, now, done, waiting', woken, left, pid);
      waiting', woken, left := PassStepFor(s, now, done, pid, waiting', woken, left);
      done, pending := done + {pid}, pending - {pid};
    }
    AllDone(s.waiting.Keys, done);
  }

  class ProcessScheduler {
    var scheduled: map<nat, Proc>
    var waiting: map<nat, Proc>
    var exited: seq<Exit>
    var maxPriority: nat
    var current: nat
    var cpuContext: Option<Context>
    var scheduling: bool
    var live: Live
    ghost var parents: map<nat, nat>
    ghost var ceiling: nat
    ghost var saved: map<nat, Saved>
    ghost var kernel: Live
    ghost var point: Point

    ghost function Now(): (s: State)
      reads this
      ensures s.scheduled == scheduled && s.waiting == waiting && s.exited == exited && s.maxPriority == maxPriority
      ensures s.current == current && s.cpuContext == cpuContext && s.scheduling == scheduling && s.live == live
      ensures s.parents == parents && s.ceiling == ceiling && s.saved == saved && s.kernel == kernel && s.point == point
    {
      State(scheduled, waiting, exited, maxPriority, current, cpuContext, scheduling, live, parents, ceiling, saved,
            kernel, point)
    }

    constructor (live: Live)
      ensures Now() == Start(live)
    {
      scheduled, waiting, exited, maxPriority := map[], map[], [], U64_MAX;
      current, cpuContext, scheduling, this.live := 0, None, false, live;
      parents, ceiling, saved, kernel, point := map[], U64_MAX, map[], live, LoopTop;
    }

    method Reschedule(pid: nat, p: Proc)
      modifies this`scheduled
      ensures scheduled == old(scheduled)[pid := p.(counter := maxPriority, status := Status.Scheduled)]
    {
      scheduled := scheduled[pid := p.(counter := maxPriority, status := Status.Scheduled)];
    }

    /** The first pass: exits are handed to the running and the waiting, in the order of their ids. */
    method FirstPass(now: ClockTime) returns (woken: map<nat, Proc>)
      requires forall pid :: pid in waiting ==> waiting[pid].status != Status.Scheduled
      modifies this`waiting, this`exited
      ensures Passed(old(Now()), now, old(waiting).Keys, waiting, woken, exited)
    {
      hide Passed;
      waiting, woken, exited := PassAll(Now(), now, waiting, exited);
    }

    /** Reschedules the processes that were woken. */
    method RescheduleAll(woken: map<nat, Proc>)
      requires woken.Keys !! scheduled.Keys
      modifies this`scheduled
      ensures Joined(maxPriority, old(scheduled), woken, scheduled)
    {
      hide Joined;
      var pending := woken.Keys;
      NoneJoined(maxPriority, scheduled, woken);
      while pending != {}
        invariant pending <= woken.Keys && Joined(maxPriority, old(scheduled), woken - pending, scheduled)
        decreases |pending|
      {
        var pid :| pid in pending;
        JoinOne(maxPriority, old(scheduled), woken, pending, pid, scheduled);
        Reschedule(pid, woken[pid]);
        pending := pending - {pid};
      }
      assert woken - pending == woken;
    }

    /** The second pass: what is left goes to parents that are scheduled; all other exits are dropped. */
    method SecondPass()
      modifies this`scheduled, this`exited
      ensures exited == [] && AllHeard(old(scheduled), old(exited), scheduled)
    {
      hide ExitsOf;
      var i := 0;
      HeardNothing(scheduled);
      while i < |exited|
        invariant i <= |exited| && exited == old(exited)
        invariant AllHeard(old(scheduled), exited[..i], scheduled)
      {
        var e := exited[i];
        HeardOne(old(scheduled), exited, i, scheduled);
        if e.parent in scheduled {
          var p := scheduled[e.parent];
          scheduled := scheduled[e.parent := p.(childExits := p.childExits[e.pid := e.code])];
        }
        i := i + 1;
      }
      assert exited[..i] == old(exited);
      exited := [];
    }

    /** The first pass, and its woken processes rescheduled. */
    method PassAndReschedule(now: ClockTime) returns (ghost woken: map<nat, Proc>)
      requires Places(Now())
      modifies this`scheduled, this`waiting, this`exited
      ensures Passed(old(Now()), now, old(waiting).Keys, waiting, woken, exited)
      ensures Joined(maxPriority, old(scheduled), woken, scheduled)
    {
      NoneScheduled(Now());
      hide Places, Passed, Joined, Woken;
      ghost var s := Now();
      var extracted := FirstPass(now);
      WokenApart(s, now, waiting, extracted, exited);
      RescheduleAll(extracted);
      woken := extracted;
    }

    /** The sweep. */
    method TryWakeWaitingProcesses(now: ClockTime)
      requires Places(Now())
      modifies this`scheduled, this`waiting, this`exited, this`saved
      ensures Now() == Swept(old(Now()), now)
    {
      hide Places, Passed, Joined, AllHeard, Swept, Woken;
      ghost var s := Now();
      ghost var woken := PassAndReschedule(now);
      ghost var (joined, left) := (scheduled, exited);
      SecondPass();
      saved := Swept(s, now).saved;
      SweepDone(s, now, waiting, woken, left, joined, scheduled);
    }

    method PushProcess(pid: nat, p: Proc)
      requires Enabled(Now(), Push(pid, p))
      modifies this
      ensures Now() == Pushed(old(Now()), pid, p)
      ensures scheduled == old(scheduled)[pid := p.(counter := maxPriority, status := Status.Scheduled)]
    {
      Reschedule(pid, p);
      parents, saved := parents[pid := p.parent], saved[pid := Saved(p.context, None)];
    }

    /** Puts the highest counter on every scheduled process. */
    method ResetCounters()
      modifies this`scheduled
      ensures Now() == Reset(old(Now()))
    {
      var pending := scheduled.Keys;
      while pending != {}
        invariant pending <= scheduled.Keys && scheduled.Keys == old(scheduled).Keys
        invariant forall pid :: pid in scheduled ==>
          scheduled[pid] == if pid in pending then old(scheduled)[pid] else old(scheduled)[pid].(counter := U64_MAX)
        decreases |pending|
      {
        var pid :| pid in pending;
        scheduled := scheduled[pid := scheduled[pid].(counter := U64_MAX)];
        pending := pending - {pid};
      }
      assert scheduled == Reset(old(Now())).scheduled;
    }

    /** Any scheduled process whose counter is the highest, as the heap may break ties as it likes. */
    method PeekTop() returns (pid: nat)
      requires scheduled != map[]
      ensures IsTop(Now(), pid)
    {
      var rest := scheduled.Keys;
      pid :| pid in rest;
      rest := rest - {pid};
      while rest != {}
        invariant rest <= scheduled.Keys && pid in scheduled
        invariant forall q :: q in scheduled && q !in rest ==> scheduled[q].counter <= scheduled[pid].counter
        decreases |rest|
      {
        var q :| q in rest;
        if scheduled[q].counter > scheduled[pid].counter {
          pid := q;
        }
        rest := rest - {q};
      }
    }

    /** Sweeps, and resets the counters if even the highest one is low. */
    method MakeReady(now: ClockTime)
      requires Places(Now())
      modifies this`scheduled, this`waiting, this`exited, this`saved
      ensures Now() == Ready(old(Now()), now)
    {
      hide Swept, Places, Reset;
      TryWakeWaitingProcesses(now);
      if scheduled != map[] {
        var top := PeekTop();
        if scheduled[top].counter < MIN_PRIORITY_VALUE {
          assert Low(Now());
          ResetCounters();
        } else {
          assert !Low(Now());
        }
      }
    }

    /** Hands the processor to a process, whose counter sets the counter for newcomers. */
    method Dispatch(pid: nat)
      requires CanDispatch(Now(), pid)
      modifies this
      ensures Now() == Dispatched(old(Now()), pid)
    {
      var top := scheduled[pid];
      var p := top.(status := Status.Running, counter := top.counter - (6 - top.priority));
      scheduled := scheduled - {pid};
      maxPriority, current, cpuContext, scheduling := p.counter, pid, Some(p.context), true;
      waiting := waiting[pid := p];
      ceiling, point := top.counter, BeforeSwitch;
    }

    /** One turn of the scheduling loop. */
    method ScheduleRound(now: ClockTime) returns (choice: nat)
      requires Inv(Now()) && point == LoopTop
      modifies this
      ensures Enabled(old(Now()), Round(now, choice)) && Works(old(Now()), Round(now, choice))
      ensures Now() == Step(old(Now()), Round(now, choice))
      ensures if Ready(old(Now()), now).scheduled == map[] then Now() == Ready(old(Now()), now)
              else TurnTaken(Ready(old(Now()), now), Now(), choice)
    {
      hide Inv, Ready, Places, SweepWorks, Dispatched, IsTop, CanDispatch, TurnTaken;
      ghost var s := Now();
      InvIsPlaces(s);
      SweepNeverFails(s, now);
      // the assertion of the source
      assert cpuContext.None?;
      choice := 0;
      MakeReady(now);
      if scheduled != map[] {
        choice := PeekTop();
        CanDecrement(s, now, choice);
        DispatchIsTurn(Ready(s, now), choice);
        Dispatch(choice);
      }
    }

    /** The interrupt that goes over to the process that was dispatched. */
    method InterruptHandler()
      requires Inv(Now()) && Enabled(Now(), Action.Enter)
      modifies this
      ensures Now() == Entered(old(Now()))
    {
      hide Places, Saves, Known, Swept, Dispatched;
      NothingPanics(Now(), Action.Enter);
      InvIsPlaces(Now());
      hide Inv, Places;
      // the assertions of the source
      assert live.FromKernel() && cpuContext.Some? && scheduling;
      kernel, point := live, InUser;
      scheduling := false;
      var context, state := SwapContext(cpuContext.value, live);
      cpuContext, live := Some(context), state;
    }

    /** Takes the processor from the current process, whose state is kept in `p`. */
    method Suspend(p: Proc) returns (p': Proc)
      requires InProcess(Now()) && live.Valid()
      modifies this`cpuContext, this`live, this`saved, this`point
      ensures Now() == Suspended(old(Now())) && p' == p.(context := ToContext(old(live)))
    {
      saved := saved[current := Saved(ToContext(live), None)];
      var context, state := SwapContext(cpuContext.value, live);
      p' := p.(context := context);
      cpuContext, live, point := None, state, LoopTop;
    }

    method YieldCurrent()
      requires Inv(Now())
      modifies this
      ensures Now() == if InProcess(old(Now())) then Yielded(old(Now())) else old(Now())
    {
      InvIsPlaces(Now());
      hide Inv;
      if cpuContext.None? || scheduling {
        return;
      }
      var p := waiting[current];
      waiting := waiting - {current};
      p := Suspend(p);
      Reschedule(current, p);
    }

    method SleepCurrent(now: ClockTime, time: ClockTime)
      requires Inv(Now()) && Enabled(Now(), Sleep(now, time))
      modifies this
      ensures Now() == Blocked(old(Now()), WaitingForTime(now.Plus(time)))
    {
      InvIsPlaces(Now());
      hide Inv;
      var deadline := now.Plus(time);
      var p := Suspend(waiting[current].(status := WaitingForTime(deadline)));
      waiting := waiting[current := p];
    }

    /** Waits for a process, if there is one with that id. */
    method WaitForPid(pid: nat) returns (found: bool)
      requires Inv(Now()) && Enabled(Now(), WaitFor(pid))
      modifies this
      ensures found == Exists(old(Now()), pid)
      ensures Now() == if found then Blocked(old(Now()), WaitingForPid(pid)) else old(Now())
    {
      InvIsPlaces(Now());
      hide Inv;
      found := pid in waiting || pid in scheduled;
      if found {
        var p := Suspend(waiting[current].(status := WaitingForPid(pid)));
        waiting := waiting[current := p];
      }
    }

    method ExitCurrent(code: int)
      requires Inv(Now()) && Enabled(Now(), ExitNow(code))
      modifies this
      ensures Now() == ExitedWith(old(Now()), code)
      ensures current in old(waiting) && exited == old(exited) + [Exit(current, old(waiting)[current].parent, code)]
    {
      InvIsPlaces(Now());
      hide Inv;
      var p := waiting[current];
      waiting := waiting - {current};
      p := Suspend(p);
      exited := exited + [Exit(current, p.parent, code)];
    }
  }

  lemma NoneScheduled(s: State)
    requires Places(s)
    ensures forall pid :: pid in s.waiting ==> s.waiting[pid].status != Status.Scheduled
  {}

  lemma InvIsPlaces(s: State)
    requires Inv(s)
    ensures Places(s) && s.live.Valid()
  {}

  /** `after` is `before` and the rescheduled `woken`. */
  ghost predicate Joined(counter: nat, before: map<nat, Proc>, woken: map<nat, Proc>, after: map<nat, Proc>) {
    && after.Keys == before.Keys + woken.Keys
    && (forall pid :: pid in before ==> after[pid] == before[pid])
    && (forall pid :: pid in woken ==> after[pid] == woken[pid].(counter := counter, status := Status.Scheduled))
  }

  lemma NoneJoined(counter: nat, before: map<nat, Proc>, woken: map<nat, Proc>)
    ensures Joined(counter, before, woken - woken.Keys, before)
  {}

  lemma JoinOne(counter: nat, before: map<nat, Proc>, woken: map<nat, Proc>, pending: set<nat>, pid: nat,
                now: map<nat, Proc>)
    requires Joined(counter, before, woken - pending, now) && woken.Keys !! before.Keys
    requires pending <= woken.Keys && pid in pending
    ensures Joined(counter, before, woken - (pending - {pid}),
                   now[pid := woken[pid].(counter := counter, status := Status.Scheduled)])
  {
    assert (woken - (pending - {pid})).Keys == (woken - pending).Keys + {pid};
  }

  /** Every process has learned of the exits of its children. */
  ghost predicate AllHeard(before: map<nat, Proc>, exited: seq<Exit>, after: map<nat, Proc>) {
    && after.Keys == before.Keys
    && (forall pid :: pid in before ==>
         after[pid] == before[pid].(childExits := before[pid].childExits + ExitsOf(exited, pid)))
  }

  lemma HeardNothing(scheduled: map<nat, Proc>)
    ensures AllHeard(scheduled, [], scheduled)
  {}

  lemma HeardOne(before: map<nat, Proc>, exited: seq<Exit>, i: nat, now: map<nat, Proc>)
    requires i < |exited| && AllHeard(before, exited[..i], now)
    ensures var e := exited[i];
      if e.parent in now
      then AllHeard(before, exited[..i + 1],
                    now[e.parent := now[e.parent].(childExits := now[e.parent].childExits[e.pid := e.code])])
      else AllHeard(before, exited[..i + 1], now)
  {
    assert exited[..i + 1][..i] == exited[..i];
  }

  lemma WokenApart(s: State, now: ClockTime, waiting: map<nat, Proc>, woken: map<nat, Proc>, left: seq<Exit>)
    requires Places(s) && Passed(s, now, s.waiting.Keys, waiting, woken, left)
    ensures woken.Keys !! s.scheduled.Keys
  {}

  lemma SweepDone(s: State, now: ClockTime, waiting: map<nat, Proc>, woken: map<nat, Proc>, left: seq<Exit>,
                  joined: map<nat, Proc>, scheduled: map<nat, Proc>)
    requires Places(s) && Passed(s, now, s.waiting.Keys, waiting, woken, left)
    requires Joined(s.maxPriority, s.scheduled, woken, joined) && AllHeard(joined, left, scheduled)
    ensures Swept(s, now).scheduled == scheduled && Swept(s, now).waiting == waiting
  {
    hide ExitsOf, Found, Left, Swept, Wakes, PassedProc, Exists, Woken, Passed, Joined, AllHeard, Places;
    var t := Swept(s, now);
    PlacesApart(s);
    PassedKeys(s, now, waiting, woken, left);
    JoinedKeys(s.maxPriority, s.scheduled, woken, joined);
    HeardKeys(joined, left, scheduled);
    forall pid | pid in scheduled ensures scheduled[pid] == t.scheduled[pid] {
      SweepDoneScheduled(s, now, woken, left, joined, scheduled, pid);
    }
    forall pid | pid in waiting ensures waiting[pid] == t.waiting[pid] {
      SweepDoneWaiting(s, now, pid);
    }
  }

  lemma PlacesApart(s: State)
    requires Places(s)
    ensures s.scheduled.Keys !! s.waiting.Keys
  {}

  lemma PassedKeys(s: State, now: ClockTime, waiting: map<nat, Proc>, woken: map<nat, Proc>, left: seq<Exit>)
    requires Passed(s, now, s.waiting.Keys, waiting, woken, left)
    ensures woken.Keys == Woken(s, now) && waiting.Keys == s.waiting.Keys - Woken(s, now)
    ensures left == Left(s, s.exited, s.waiting.Keys)
    ensures forall pid :: pid in woken ==> woken[pid] == PassedProc(s, now, pid)
    ensures forall pid :: pid in waiting ==> waiting[pid] == PassedProc(s, now, pid)
  {
    hide PassedProc, Left;
    assert Woken(s, now) * s.waiting.Keys == Woken(s, now);
  }

  lemma JoinedKeys(counter: nat, before: map<nat, Proc>, woken: map<nat, Proc>, after: map<nat, Proc>)
    requires Joined(counter, before, woken, after)
    ensures after.Keys == before.Keys + woken.Keys
  {}

  lemma HeardKeys(before: map<nat, Proc>, exited: seq<Exit>, after: map<nat, Proc>)
    requires AllHeard(before, exited, after)
    ensures after.Keys == before.Keys
  {}

  lemma SweepDoneScheduled(s: State, now: ClockTime, woken: map<nat, Proc>, left: seq<Exit>,
                           joined: map<nat, Proc>, scheduled: map<nat, Proc>, pid: nat)
    requires s.scheduled.Keys !! s.waiting.Keys && woken.Keys == Woken(s, now)
    requires left == Left(s, s.exited, s.waiting.Keys)
    requires pid in woken ==> woken[pid] == PassedProc(s, now, pid)
    requires Joined(s.maxPriority, s.scheduled, woken, joined) && AllHeard(joined, left, scheduled) && pid in scheduled
    ensures pid in Swept(s, now).scheduled && scheduled[pid] == Swept(s, now).scheduled[pid]
  {
    hide ExitsOf, Found, Left, Swept, SweptProc, PassedProc, Wakes;
    SweptIs(s, now, pid);
    if pid in s.scheduled {
      HeardScheduled(s, now, left, pid);
    } else {
      HeardWoken(s, now, left, pid);
    }
  }

  lemma SweepDoneWaiting(s: State, now: ClockTime, pid: nat)
    requires s.scheduled.Keys !! s.waiting.Keys && pid in s.waiting && pid !in Woken(s, now)
    ensures pid in Swept(s, now).waiting && Swept(s, now).waiting[pid] == PassedProc(s, now, pid)
  {
    hide ExitsOf, Found, Swept, SweptProc, PassedProc, Wakes;
    SweptIs(s, now, pid);
    KeptWaiting(s, now, pid);
  }

  lemma HeardScheduled(s: State, now: ClockTime, left: seq<Exit>, pid: nat)
    requires pid in s.scheduled && pid !in s.waiting && left == Left(s, s.exited, s.waiting.Keys)
    ensures var p := s.scheduled[pid];
      SweptProc(s, now, pid) == p.(childExits := p.childExits + ExitsOf(left, pid))
  {
    LeftExits(s, s.exited, s.waiting.Keys, pid);
  }

  lemma HeardWoken(s: State, now: ClockTime, left: seq<Exit>, pid: nat)
    requires pid in s.waiting && pid !in s.scheduled && Wakes(s, now, pid) && left == Left(s, s.exited, s.waiting.Keys)
    ensures var p := PassedProc(s, now, pid).(counter := s.maxPriority, status := Status.Scheduled);
      SweptProc(s, now, pid) == p.(childExits := p.childExits + ExitsOf(left, pid))
  {
    LeftExits(s, s.exited, s.waiting.Keys, pid);
    hide ExitsOf, Found, Left;
    var p := PassedProc(s, now, pid);
    assert p.childExits + map[] == p.childExits;
  }

  lemma KeptWaiting(s: State, now: ClockTime, pid: nat)
    requires pid in s.waiting && pid !in s.scheduled && !Wakes(s, now, pid)
    ensures SweptProc(s, now, pid) == PassedProc(s, now, pid)
  {
    hide ExitsOf, Found;
  }

  lemma {:induction false} LeftNone(s: State, exited: seq<Exit>)
    ensures Left(s, exited, {}) == exited
  {
    if exited != [] {
      LeftNone(s, exited[..|exited| - 1]);
    }
  }

  lemma NonePassed(s: State, now: ClockTime)
    ensures Before(s.waiting.Keys, {}, s.waiting.Keys) && Passed(s, now, {}, s.waiting, map[], s.exited)
  {
    LeftNone(s, s.exited);
  }

  lemma AllDone(all: set<nat>, done: set<nat>)
    requires Before(all, done, {})
    ensures done == all
  {}
}
