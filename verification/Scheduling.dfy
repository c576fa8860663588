/**
 The scheduler as a step system: what each of its operations does to the processes and to the state of
 the processor, and what every reachable state satisfies.
 */
module Scheduling {
  import opened Options
  import opened Clock
  import opened Contexts

  const MIN_PRIORITY_VALUE: nat := 100
  const U64_MAX: nat := 0xFFFF_FFFF_FFFF_FFFF

  datatype Status = Running | Scheduled | WaitingForPid(pid: nat) | WaitingForTime(deadline: ClockTime)

  datatype Proc = Proc(parent: nat, priority: nat, counter: nat, status: Status, context: Context,
                       childExits: map<nat, int>)
  {
    /** Processes that take part in the first pass over the exits. */
    predicate Receptive() {
      status.Running? || status.WaitingForPid?
    }
  }

  /** A process that has exited and waits for the next sweep. */
  datatype Exit = Exit(pid: nat, parent: nat, code: int)

  /** The state of a process at its last suspension, and the answer a wait has since been given. */
  datatype Saved = Saved(context: Context, answer: Option<nat>)
  {
    /** What the process is to resume with. */
    function Resumed(): Context {
      match answer
      case None => context
      case Some(rax) => context.(regs := context.regs.(rax := rax))
    }
  }

  /** Where the processor is: at the top of the scheduling loop, about to switch to a process, or in one. */
  datatype Point = LoopTop | BeforeSwitch | InUser

  /** The scheduler and the processor; the last five fields only record what has happened. */
  datatype State = State(
    scheduled: map<nat, Proc>,
    waiting: map<nat, Proc>,
    exited: seq<Exit>,
    maxPriority: nat,
    current: nat,
    cpuContext: Option<Context>,
    scheduling: bool,
    live: Live,
    parents: map<nat, nat>,
    ceiling: nat,
    saved: map<nat, Saved>,
    kernel: Live,
    point: Point)

  function Start(live: Live): State {
    State(map[], map[], [], U64_MAX, 0, None, false, live, map[], U64_MAX, map[], live, LoopTop)
  }

  // The operations.

  function Rescheduled(s: State, p: Proc): Proc {
    p.(counter := s.maxPriority, status := Scheduled)
  }

  function Pushed(s: State, pid: nat, p: Proc): State {
    s.(scheduled := s.scheduled[pid := Rescheduled(s, p)],
       parents := s.parents[pid := p.parent],
       saved := s.saved[pid := Saved(p.context, None)])
  }

  /** The exit codes of the children of `parent`. */
  function ExitsOf(exited: seq<Exit>, parent: nat): map<nat, int> {
    if exited == [] then map[]
    else
      var (rest, e) := (ExitsOf(exited[..|exited| - 1], parent), exited[|exited| - 1]);
      if e.parent == parent then rest[e.pid := e.code] else rest
  }

  /** Whether the first pass has given this exit to its parent before it comes to process `pid`. */
  predicate TakenBefore(s: State, e: Exit, pid: nat) {
    e.parent < pid && e.parent in s.waiting && s.waiting[e.parent].Receptive()
  }

  /** The code that process `pid` finds when it waits for `awaited`. */
  function Found(s: State, exited: seq<Exit>, pid: nat, awaited: nat): Option<int> {
    if exited == [] then None
    else
      var e := exited[|exited| - 1];
      if e.pid == awaited && !TakenBefore(s, e, pid) then Some(e.code)
      else Found(s, exited[..|exited| - 1], pid, awaited)
  }

  /** An exit code in a 64-bit register. */
  function AsU64(code: int): nat {
    code % 0x1_0000_0000_0000_0000
  }

  /** Codes are 32 bits wide, and are extended with their sign. */
  lemma CodeInRegister(code: int)
    requires -0x8000_0000 <= code < 0x8000_0000
    ensures code >= 0 ==> AsU64(code) == code
    ensures code < 0 ==> AsU64(code) == 0x1_0000_0000_0000_0000 + code
  {
  }

  predicate Wakes(s: State, now: ClockTime, pid: nat)
    requires pid in s.waiting
  {
    match s.waiting[pid].status
    case WaitingForPid(q) => Found(s, s.exited, pid, q).Some?
    case WaitingForTime(t) => t.AtMost(now)
    case _ => false
  }

  function Woken(s: State, now: ClockTime): (w: set<nat>)
    ensures w <= s.waiting.Keys
  {
    set pid | pid in s.waiting && Wakes(s, now, pid)
  }

  /** The answer to a process that is woken: the exit code it waited for. */
  function Answer(s: State, pid: nat): Option<nat>
    requires pid in s.waiting
  {
    match s.waiting[pid].status
    case WaitingForPid(q) =>
      (match Found(s, s.exited, pid, q) case Some(code) => Some(AsU64(code)) case None => None)
    case _ => None
  }

  function WithAnswer(p: Proc, answer: Option<nat>): Proc {
    if answer.None? then p else p.(context := p.context.(regs := p.context.regs.(rax := answer.value)))
  }

  function Heard(s: State, pid: nat, p: Proc): Proc {
    p.(childExits := p.childExits + ExitsOf(s.exited, pid))
  }

  /** One process after a sweep, scheduled or still waiting. */
  function SweptProc(s: State, now: ClockTime, pid: nat): Proc
    requires pid in s.scheduled || pid in s.waiting
  {
    if pid in s.scheduled then Heard(s, pid, s.scheduled[pid])
    else if Wakes(s, now, pid) then Rescheduled(s, WithAnswer(Heard(s, pid, s.waiting[pid]), Answer(s, pid)))
    else if s.waiting[pid].Receptive() then Heard(s, pid, s.waiting[pid])
    else s.waiting[pid]
  }

  /** The sweep: exits go to the parents that are not asleep, and waits that are over are woken. */
  function Swept(s: State, now: ClockTime): (t: State)
    ensures t.scheduled.Keys == s.scheduled.Keys + Woken(s, now) && t.waiting.Keys == s.waiting.Keys - Woken(s, now)
    ensures t == s.(scheduled := t.scheduled, waiting := t.waiting, exited := [], saved := t.saved)
  {
    s.(scheduled := map pid | pid in s.scheduled.Keys + Woken(s, now) :: SweptProc(s, now, pid),
       waiting := map pid | pid in s.waiting.Keys - Woken(s, now) :: SweptProc(s, now, pid),
       exited := [],
       saved := map pid | pid in s.saved ::
         if pid in s.waiting && Wakes(s, now, pid) && Answer(s, pid).Some?
         then s.saved[pid].(answer := Answer(s, pid)) else s.saved[pid])
  }

  /** Whether the counters have run so low that they are all reset: the highest one has. */
  predicate Low(s: State) {
    s.scheduled != map[] && forall pid :: pid in s.scheduled ==> s.scheduled[pid].counter < MIN_PRIORITY_VALUE
  }

  function Reset(s: State): State {
    s.(scheduled := map pid | pid in s.scheduled :: s.scheduled[pid].(counter := U64_MAX))
  }

  function ResetIfLow(s: State): State {
    if Low(s) then Reset(s) else s
  }

  /** A process the heap may hand out: none has a higher counter. */
  predicate IsTop(s: State, pid: nat) {
    pid in s.scheduled && forall q :: q in s.scheduled ==> s.scheduled[q].counter <= s.scheduled[pid].counter
  }

  function Decrement(p: Proc): int {
    6 - p.priority
  }

  function Dispatched(s: State, pid: nat): State
    requires CanDispatch(s, pid)
  {
    var p := s.scheduled[pid];
    var counter := p.counter - Decrement(p);
    s.(scheduled := s.scheduled - {pid},
       waiting := s.waiting[pid := p.(status := Running, counter := counter)],
       maxPriority := counter,
       current := pid,
       cpuContext := Some(p.context),
       scheduling := true,
       ceiling := p.counter,
       point := BeforeSwitch)
  }

  /** The state a round of the scheduler picks a process from. */
  function Ready(s: State, now: ClockTime): State {
    ResetIfLow(Swept(s, now))
  }

  /** The processor goes over to the process that was dispatched. */
  function Entered(s: State): State
    requires s.cpuContext.Some?
  {
    s.(scheduling := false, cpuContext := Some(ToContext(s.live)), live := ToLive(s.cpuContext.value),
       kernel := s.live, point := InUser)
  }

  /** The processor goes back to the kernel, and the current process keeps its state. */
  function Suspended(s: State): State
    requires s.cpuContext.Some?
  {
    s.(cpuContext := None, live := ToLive(s.cpuContext.value), point := LoopTop,
       saved := s.saved[s.current := Saved(ToContext(s.live), None)])
  }

  function Yielded(s: State): State
    requires s.cpuContext.Some? && s.current in s.waiting
  {
    var p := s.waiting[s.current].(context := ToContext(s.live));
    Suspended(s).(waiting := s.waiting - {s.current}, scheduled := s.scheduled[s.current := Rescheduled(s, p)])
  }

  function Blocked(s: State, status: Status): State
    requires s.cpuContext.Some? && s.current in s.waiting
  {
    var p := s.waiting[s.current].(context := ToContext(s.live), status := status);
    Suspended(s).(waiting := s.waiting[s.current := p])
  }

  function ExitedWith(s: State, code: int): State
    requires s.cpuContext.Some? && s.current in s.waiting
  {
    Suspended(s).(waiting := s.waiting - {s.current},
                  exited := s.exited + [Exit(s.current, s.waiting[s.current].parent, code)])
  }

  /** `is_process_running`. */
  predicate Exists(s: State, pid: nat) {
    pid in s.waiting || pid in s.scheduled
  }

  // The steps.

  datatype Action =
    | Push(pid: nat, proc: Proc)
    | Round(now: ClockTime, choice: nat)
    | Enter
    | Compute(next: Live)
    | Yield
    | Sleep(now: ClockTime, time: ClockTime)
    | WaitFor(pid: nat)
    | ExitNow(code: int)
    | SetPriority(pid: nat, level: nat)
    | TakeChildExit(pid: nat)

  predicate Level(priority: int) {
    1 <= priority <= 5
  }

  /** A process as it is allocated. */
  predicate IsNew(p: Proc) {
    Level(p.priority) && p.childExits == map[] && p.context.cs < 256 && p.context.ss < 256
  }

  /** A process is in the middle of running, rather than being dispatched. */
  predicate InProcess(s: State) {
    s.cpuContext.Some? && !s.scheduling
  }

  /**
   When an operation can happen: ids are never reused, syscalls come from a process in user mode, and the
   kernel does not leave its own privilege level.
   */
  predicate Enabled(s: State, a: Action) {
    match a
    case Push(pid, p) => pid !in s.parents && IsNew(p)
    case Round(now, choice) => s.point == LoopTop && (Ready(s, now).scheduled == map[] || IsTop(Ready(s, now), choice))
    case Enter => s.point == BeforeSwitch
    case Compute(next) => next.Valid() && (s.point != InUser ==> next.FromKernel())
    case Yield => true
    case Sleep(now, time) => s.point == InUser && s.live.cs % 4 == 3
    case WaitFor(pid) => s.point == InUser && s.live.cs % 4 == 3
    case ExitNow(code) => s.point == InUser
    case SetPriority(pid, level) => Exists(s, pid) && Level(level)
    case TakeChildExit(pid) => s.point == InUser
  }

  function WithPriority(s: State, pid: nat, level: nat): State {
    if pid in s.waiting then s.(waiting := s.waiting[pid := s.waiting[pid].(priority := level)])
    else if pid in s.scheduled then s.(scheduled := s.scheduled[pid := s.scheduled[pid].(priority := level)])
    else s
  }

  function WithoutChildExit(s: State, pid: nat): State
    requires s.current in s.waiting
  {
    var p := s.waiting[s.current];
    s.(waiting := s.waiting[s.current := p.(childExits := p.childExits - {pid})])
  }

  /** The current process is found among the running and waiting ones, and is running. */
  predicate RunsCurrent(s: State) {
    s.current in s.waiting && s.waiting[s.current].status == Running
  }

  /** The assertions of the sweep hold: no exit is recorded twice, and answers go to user mode. */
  ghost predicate SweepWorks(s: State, now: ClockTime) {
    && (forall e :: e in s.exited && Exists(s, e.parent) ==> e.pid !in ProcOf(s, e.parent).childExits)
    && (forall i, j :: 0 <= i < j < |s.exited| ==> s.exited[i].pid != s.exited[j].pid)
    && (forall pid :: pid in s.waiting && Wakes(s, now, pid) && Answer(s, pid).Some? ==>
         s.waiting[pid].context.cs % 4 == 3)
    && (forall pid :: pid in s.waiting ==> s.waiting[pid].status != Scheduled)
  }

  /** The operation runs into no failed assertion, missing process or underflow. */
  ghost predicate Works(s: State, a: Action) {
    match a
    case Round(now, choice) =>
      && s.cpuContext.None? && SweepWorks(s, now)
      && (Ready(s, now).scheduled == map[] || CanDispatch(Ready(s, now), choice))
    case Enter => s.live.FromKernel() && s.cpuContext.Some? && s.scheduling
    case Yield => InProcess(s) ==> RunsCurrent(s)
    case Sleep(_, _) => s.cpuContext.Some? && RunsCurrent(s)
    case WaitFor(_) => s.cpuContext.Some? && RunsCurrent(s)
    case ExitNow(_) => s.cpuContext.Some? && RunsCurrent(s)
    case TakeChildExit(_) => s.cpuContext.Some? && RunsCurrent(s)
    case _ => true
  }

  predicate CanDispatch(s: State, pid: nat) {
    && pid in s.scheduled && s.scheduled[pid].status == Scheduled
    && 0 <= Decrement(s.scheduled[pid]) <= s.scheduled[pid].counter
  }

  ghost function Step(s: State, a: Action): State
    requires Enabled(s, a) && Works(s, a)
  {
    match a
    case Push(pid, p) => Pushed(s, pid, p)
    case Round(now, choice) => AfterRound(s, now, choice)
    case Enter => Entered(s)
    case Compute(next) => s.(live := next)
    case Yield => if InProcess(s) then Yielded(s) else s
    case Sleep(now, time) => Blocked(s, WaitingForTime(now.Plus(time)))
    case WaitFor(pid) => if Exists(s, pid) then Blocked(s, WaitingForPid(pid)) else s
    case ExitNow(code) => ExitedWith(s, code)
    case SetPriority(pid, level) => WithPriority(s, pid, level)
    case TakeChildExit(pid) => WithoutChildExit(s, pid)
  }

  /**
   From the state `s` a process with the highest counter has its turn: its counter comes down by 5, 4, 3, 2 or 1 for
   the levels 1 to 5, newcomers get the counter it then has, and it goes on with its context.
   */
  predicate TurnTaken(s: State, t: State, pid: nat) {
    && pid in s.scheduled && (forall q :: q in s.scheduled ==> s.scheduled[q].counter <= s.scheduled[pid].counter)
    && pid !in t.scheduled && pid in t.waiting && t.current == pid
    && t.waiting[pid].status == Running && t.waiting[pid].priority == s.scheduled[pid].priority
    && s.scheduled[pid].counter - t.waiting[pid].counter + s.scheduled[pid].priority == 6
    && t.maxPriority == t.waiting[pid].counter
    && t.cpuContext == Some(s.scheduled[pid].context) && t.waiting[pid].context == s.scheduled[pid].context
    && (forall q :: q in s.scheduled && q != pid ==> q in t.scheduled && t.scheduled[q] == s.scheduled[q])
  }

  lemma DispatchIsTurn(s: State, pid: nat)
    requires IsTop(s, pid) && CanDispatch(s, pid)
    ensures TurnTaken(s, Dispatched(s, pid), pid)
  {
  }

  /** A round: sweep, reset the counters if they are low, and dispatch a process if there is one. */
  function AfterRound(s: State, now: ClockTime, choice: nat): State
    requires Ready(s, now).scheduled == map[] || CanDispatch(Ready(s, now), choice)
  {
    var t := Ready(s, now);
    if t.scheduled == map[] then t else Dispatched(t, choice)
  }

  // What every reachable state satisfies.

  /** Every process is in one collection, in the status that belongs there. */
  ghost predicate Places(s: State) {
    && s.scheduled.Keys !! s.waiting.Keys
    && (forall pid :: pid in s.scheduled ==> s.scheduled[pid].status == Scheduled)
    && (forall pid :: pid in s.waiting ==> s.waiting[pid].status != Scheduled)
    && (forall pid :: pid in s.waiting ==>
          (s.waiting[pid].status == Running <==> s.cpuContext.Some? && pid == s.current))
    && (s.cpuContext.Some? ==> s.current in s.waiting)
    && (s.point == LoopTop <==> s.cpuContext.None?) && (s.point == BeforeSwitch <==> s.scheduling)
    && (s.scheduling ==> s.cpuContext.Some?)
    && (forall e :: e in s.exited ==> !Exists(s, e.pid))
    && (forall i, j :: 0 <= i < j < |s.exited| ==> s.exited[i].pid != s.exited[j].pid)
  }

  /** Counters keep within five of the last one dispatched, which is high enough to be decremented. */
  ghost predicate Counters(s: State) {
    && MIN_PRIORITY_VALUE <= s.ceiling <= U64_MAX
    && s.ceiling - 5 <= s.maxPriority <= s.ceiling
    && (forall pid :: pid in s.scheduled ==> s.ceiling - 5 <= s.scheduled[pid].counter <= s.ceiling)
    && (forall pid :: pid in s.scheduled ==> Level(s.scheduled[pid].priority))
    && (forall pid :: pid in s.waiting ==> Level(s.waiting[pid].priority))
  }

  function ProcOf(s: State, pid: nat): Proc
    requires Exists(s, pid)
  {
    if pid in s.scheduled then s.scheduled[pid] else s.waiting[pid]
  }

  predicate Exiting(s: State, pid: nat) {
    exists e :: e in s.exited && e.pid == pid
  }

  /** Parents are who they were, and know only of children that are gone. */
  ghost predicate Family(s: State) {
    && (forall pid :: pid in s.scheduled ==> Known(s, pid, s.scheduled[pid]))
    && (forall pid :: pid in s.waiting ==> Known(s, pid, s.waiting[pid]))
    && (forall e :: e in s.exited ==> e.pid in s.parents && s.parents[e.pid] == e.parent)
  }

  ghost predicate Known(s: State, pid: nat, p: Proc) {
    && pid in s.parents && s.parents[pid] == p.parent
    && (forall c :: c in p.childExits ==> GoneChild(s, pid, c))
  }

  ghost predicate GoneChild(s: State, pid: nat, c: nat) {
    c in s.parents && s.parents[c] == pid && !Exists(s, c) && !Exiting(s, c)
  }

  /** A process that waits for a child of its own waits for one that is alive, or about to be swept. */
  ghost predicate Waits(s: State) {
    forall pid :: pid in s.waiting && s.waiting[pid].status.WaitingForPid? ==>
      var c := s.waiting[pid].status.pid;
      && s.waiting[pid].context.cs % 4 == 3
      && (c in s.parents && s.parents[c] == pid ==> Exists(s, c) || Exiting(s, c))
  }

  /** The record of suspended states agrees with what the scheduler and the processor hold. */
  ghost predicate Saves(s: State) {
    && s.live.Valid() && s.kernel.Valid() && s.kernel.FromKernel()
    && (!InProcess(s) ==> s.live.FromKernel())
    && (forall pid :: pid in s.scheduled ==> IsSaved(s, pid, s.scheduled[pid]))
    && (forall pid :: pid in s.waiting ==> IsSaved(s, pid, s.waiting[pid]))
    && (s.cpuContext.Some? && s.scheduling ==>
         s.current in s.waiting && s.cpuContext.value == s.waiting[s.current].context)
    && (InProcess(s) ==> s.cpuContext.value == ToContext(s.kernel))
  }

  /** The context of a process is its last suspended state, unless the process is in the middle of running. */
  ghost predicate IsSaved(s: State, pid: nat, p: Proc) {
    && pid in s.saved && s.saved[pid].context.cs < 256 && s.saved[pid].context.ss < 256
    && (!(InProcess(s) && pid == s.current) ==> p.context == s.saved[pid].Resumed())
  }

  ghost predicate Inv(s: State) {
    Places(s) && Counters(s) && Family(s) && Waits(s) && Saves(s)
  }

  /** What a sweep keeps of every process. */
  lemma SweptKeeps(s: State, now: ClockTime, pid: nat)
    requires Places(s)
    ensures pid in Swept(s, now).scheduled ==>
      var (p, q) := (Swept(s, now).scheduled[pid], if pid in s.scheduled then s.scheduled[pid] else s.waiting[pid]);
      && p.status == Scheduled && p.priority == q.priority && p.parent == q.parent
      && p.counter == if pid in s.scheduled then q.counter else s.maxPriority
    ensures pid in Swept(s, now).waiting ==>
      pid in s.waiting && Swept(s, now).waiting[pid].status == s.waiting[pid].status
      && Swept(s, now).waiting[pid].priority == s.waiting[pid].priority
      && Swept(s, now).waiting[pid].parent == s.waiting[pid].parent
  {
    hide Found, ExitsOf;
  }

  lemma SweptPlaces(s: State, now: ClockTime)
    requires Places(s)
    ensures Places(Swept(s, now))
    ensures forall pid :: Exists(Swept(s, now), pid) <==> Exists(s, pid)
  {
    hide Swept, Woken;
    forall pid ensures pid in Swept(s, now).scheduled ==> Swept(s, now).scheduled[pid].status == Scheduled {
      SweptKeeps(s, now, pid);
    }
    forall pid ensures pid in Swept(s, now).waiting ==> Swept(s, now).waiting[pid].status == s.waiting[pid].status {
      SweptKeeps(s, now, pid);
    }
    RunningStays(s, now);
  }

  lemma RunningStays(s: State, now: ClockTime)
    requires Places(s)
    ensures s.cpuContext.Some? ==> s.current in Swept(s, now).waiting
  {
    hide Swept;
  }

  lemma SweptCounters(s: State, now: ClockTime)
    requires Inv(s)
    ensures Counters(Swept(s, now))
  {
    hide Swept, Woken;
    var t := Swept(s, now);
    forall pid | pid in t.scheduled
      ensures s.ceiling - 5 <= t.scheduled[pid].counter <= s.ceiling && Level(t.scheduled[pid].priority)
    {
      SweptKeeps(s, now, pid);
    }
    forall pid | pid in t.waiting ensures Level(t.waiting[pid].priority) {
      SweptKeeps(s, now, pid);
    }
  }

  /** Whatever process a round picks, its counter can be decremented. */
  lemma CanDecrement(s: State, now: ClockTime, choice: nat)
    requires Inv(s) && IsTop(Ready(s, now), choice)
    ensures CanDispatch(Ready(s, now), choice) && 100 <= Ready(s, now).scheduled[choice].counter
  {
    hide Swept;
    SweptPlaces(s, now);
    SweptCounters(s, now);
  }

  lemma SweepNeverFails(s: State, now: ClockTime)
    requires Inv(s)
    ensures SweepWorks(s, now)
  {
    hide Found;
    forall e | e in s.exited && Exists(s, e.parent) ensures e.pid !in ProcOf(s, e.parent).childExits {
      assert Exiting(s, e.pid);
      assert !GoneChild(s, e.parent, e.pid);
    }
  }

  /** In every state that keeps the invariant, no operation panics and no counter underflows. */
  lemma NothingPanics(s: State, a: Action)
    requires Inv(s) && Enabled(s, a)
    ensures Works(s, a)
  {
    hide Swept, Ready, SweepWorks, Counters, Family, Waits;
    if a.Round? {
      SweepNeverFails(s, a.now);
      if Ready(s, a.now).scheduled != map[] {
        CanDecrement(s, a.now, a.choice);
      }
    }
  }

  lemma StartInv(live: Live)
    requires live.Valid() && live.FromKernel()
    ensures Inv(Start(live))
  {}

  /** Which children are gone depends on which processes there are, not on what state they are in. */
  lemma SameGone(s: State, t: State)
    requires s.scheduled.Keys + s.waiting.Keys == t.scheduled.Keys + t.waiting.Keys
    requires s.exited == t.exited && s.parents == t.parents
    ensures forall pid :: Exists(s, pid) == Exists(t, pid) && Exiting(s, pid) == Exiting(t, pid)
    ensures forall pid, c :: GoneChild(s, pid, c) == GoneChild(t, pid, c)
  {
    assert forall pid :: pid in s.scheduled.Keys + s.waiting.Keys <==> Exists(s, pid);
    assert forall pid :: pid in t.scheduled.Keys + t.waiting.Keys <==> Exists(t, pid);
  }

  /** A status a running process can take on itself: it may only wait for a process that exists. */
  predicate CanBlock(s: State, status: Status) {
    status.WaitingForTime? || (status.WaitingForPid? && s.live.cs % 4 == 3 && Exists(s, status.pid))
  }

  lemma PushPlaces(s: State, pid: nat, p: Proc)
    requires Places(s) && Counters(s) && Family(s) && Enabled(s, Push(pid, p))
    ensures Places(Pushed(s, pid, p)) && Counters(Pushed(s, pid, p))
  {
  }

  lemma PushFamily(s: State, pid: nat, p: Proc)
    requires Places(s) && Family(s) && Waits(s) && Enabled(s, Push(pid, p))
    ensures Family(Pushed(s, pid, p)) && Waits(Pushed(s, pid, p))
  {
    var t := Pushed(s, pid, p);
    assert !Exists(s, pid) && !Exiting(s, pid);
    assert forall q, c :: GoneChild(s, q, c) ==> GoneChild(t, q, c);
    hide GoneChild, Exiting;
  }

  lemma PushSaves(s: State, pid: nat, p: Proc)
    requires Places(s) && Family(s) && Saves(s) && Enabled(s, Push(pid, p))
    ensures Saves(Pushed(s, pid, p))
  {
  }

  lemma EnterPlaces(s: State)
    requires Places(s) && Counters(s) && Enabled(s, Enter)
    ensures Places(Entered(s)) && Counters(Entered(s))
  {
  }

  lemma EnterFamily(s: State)
    requires Places(s) && Family(s) && Waits(s) && Enabled(s, Enter)
    ensures Family(Entered(s)) && Waits(Entered(s))
  {
    SameGone(s, Entered(s));
    hide GoneChild, Exiting;
  }

  lemma EnterSaves(s: State)
    requires Places(s) && Saves(s) && Enabled(s, Enter)
    ensures Saves(Entered(s))
  {
  }

  lemma YieldPlaces(s: State)
    requires Places(s) && Counters(s) && InProcess(s)
    ensures Places(Yielded(s)) && Counters(Yielded(s))
  {
  }

  lemma YieldFamily(s: State)
    requires Places(s) && Family(s) && Waits(s) && InProcess(s)
    ensures Family(Yielded(s)) && Waits(Yielded(s))
  {
    SameGone(s, Yielded(s));
    hide GoneChild, Exiting;
  }

  lemma YieldSaves(s: State)
    requires Places(s) && Saves(s) && InProcess(s)
    ensures Saves(Yielded(s))
  {
  }

  lemma BlockPlaces(s: State, status: Status)
    requires Places(s) && Counters(s) && InProcess(s) && CanBlock(s, status)
    ensures Places(Blocked(s, status)) && Counters(Blocked(s, status))
  {
  }

  lemma BlockFamily(s: State, status: Status)
    requires Places(s) && Family(s) && Waits(s) && InProcess(s) && CanBlock(s, status)
    ensures Family(Blocked(s, status)) && Waits(Blocked(s, status))
  {
    SameGone(s, Blocked(s, status));
    hide GoneChild, Exiting;
  }

  lemma BlockSaves(s: State, status: Status)
    requires Places(s) && Saves(s) && InProcess(s) && CanBlock(s, status)
    ensures Saves(Blocked(s, status))
  {
  }

  lemma ExitPlaces(s: State, code: int)
    requires Places(s) && Counters(s) && InProcess(s)
    ensures Places(ExitedWith(s, code)) && Counters(ExitedWith(s, code))
  {
  }

  lemma ExitFamily(s: State, code: int)
    requires Places(s) && Family(s) && Waits(s) && InProcess(s)
    ensures Family(ExitedWith(s, code)) && Waits(ExitedWith(s, code))
  {
  }

  lemma ExitSaves(s: State, code: int)
    requires Places(s) && Saves(s) && InProcess(s)
    ensures Saves(ExitedWith(s, code))
  {
  }

  lemma PriorityPlaces(s: State, pid: nat, level: nat)
    requires Places(s) && Exists(s, pid) && Level(level)
    ensures Places(WithPriority(s, pid, level))
  {
  }

  lemma PriorityCounters(s: State, pid: nat, level: nat)
    requires Counters(s) && Exists(s, pid) && Level(level)
    ensures Counters(WithPriority(s, pid, level))
  {
  }

  lemma PriorityFamily(s: State, pid: nat, level: nat)
    requires Places(s) && Family(s) && Waits(s) && Exists(s, pid) && Level(level)
    ensures Family(WithPriority(s, pid, level)) && Waits(WithPriority(s, pid, level))
  {
    hide Exiting, Places;
    SameGone(s, WithPriority(s, pid, level));
    hide GoneChild;
  }

  lemma PrioritySaves(s: State, pid: nat, level: nat)
    requires Places(s) && Saves(s) && Exists(s, pid) && Level(level)
    ensures Saves(WithPriority(s, pid, level))
  {
  }

  lemma TakePlaces(s: State, pid: nat)
    requires Places(s) && Counters(s) && InProcess(s)
    ensures Places(WithoutChildExit(s, pid)) && Counters(WithoutChildExit(s, pid))
  {
  }

  lemma TakeFamily(s: State, pid: nat)
    requires Places(s) && Family(s) && Waits(s) && InProcess(s)
    ensures Family(WithoutChildExit(s, pid)) && Waits(WithoutChildExit(s, pid))
  {
    SameGone(s, WithoutChildExit(s, pid));
    hide GoneChild, Exiting;
  }

  lemma TakeSaves(s: State, pid: nat)
    requires Places(s) && Saves(s) && InProcess(s)
    ensures Saves(WithoutChildExit(s, pid))
  {
  }

  // The sweep.

  lemma {:induction false} ExitsOfMeaning(exited: seq<Exit>, parent: nat, c: nat)
    ensures c in ExitsOf(exited, parent) <==> exists e :: e in exited && e.pid == c && e.parent == parent
    ensures c in ExitsOf(exited, parent) ==>
      exists e :: e in exited && e.pid == c && ExitsOf(exited, parent)[c] == e.code
  {
    if exited != [] {
      var (rest, e) := (exited[..|exited| - 1], exited[|exited| - 1]);
      ExitsOfMeaning(rest, parent, c);
      assert exited == rest + [e];
    }
  }

  /** A parent finds the exit of a child of its own: no other process takes it first. */
  lemma {:induction false} FoundOwn(s: State, exited: seq<Exit>, pid: nat, e: Exit)
    requires e in exited && e.parent == pid
    requires forall i, j :: 0 <= i < j < |exited| ==> exited[i].pid != exited[j].pid
    ensures Found(s, exited, pid, e.pid) == Some(e.code)
  {
    var (rest, last) := (exited[..|exited| - 1], exited[|exited| - 1]);
    assert exited == rest + [last];
    if last != e {
      assert last.pid != e.pid;
      FoundOwn(s, rest, pid, e);
    }
  }

  lemma SweptFamily(s: State, now: ClockTime)
    requires Places(s) && Family(s)
    ensures Family(Swept(s, now))
  {
    var t := Swept(s, now);
    hide Swept, Woken;
    SweptPlaces(s, now);
    forall pid, c | GoneChild(s, pid, c) || (Exists(s, pid) && c in ExitsOf(s.exited, pid))
      ensures GoneChild(t, pid, c)
    {
      ExitsOfMeaning(s.exited, pid, c);
    }
    forall pid | pid in t.scheduled ensures Known(t, pid, t.scheduled[pid]) {
      SweptKeeps(s, now, pid);
      SweptChildren(s, now, pid);
    }
    forall pid | pid in t.waiting ensures Known(t, pid, t.waiting[pid]) {
      SweptKeeps(s, now, pid);
      SweptChildren(s, now, pid);
    }
  }

  lemma SweptIs(s: State, now: ClockTime, pid: nat)
    requires Exists(s, pid)
    ensures Exists(Swept(s, now), pid) && ProcOf(Swept(s, now), pid) == SweptProc(s, now, pid)
    ensures pid in Swept(s, now).scheduled <==> pid in s.scheduled || Wakes(s, now, pid)
    ensures pid in s.saved ==>
      && pid in Swept(s, now).saved
      && Swept(s, now).saved[pid] ==
         if pid in s.waiting && Wakes(s, now, pid) && Answer(s, pid).Some?
         then s.saved[pid].(answer := Answer(s, pid)) else s.saved[pid]
  {
    hide Found, ExitsOf, SweptProc, Wakes, Answer;
  }

  /** Every process but a sleeper has exactly the exits it had, and those of its children in this sweep. */
  lemma SweptChildren(s: State, now: ClockTime, pid: nat)
    requires Places(s) && Exists(s, pid)
    ensures var t := Swept(s, now);
      && Exists(t, pid)
      && ProcOf(t, pid).childExits ==
         if pid in t.scheduled || s.waiting[pid].Receptive()
         then ProcOf(s, pid).childExits + ExitsOf(s.exited, pid) else ProcOf(s, pid).childExits
  {
    SweptIs(s, now, pid);
    hide Found, ExitsOf, Swept, Answer, Places, Wakes;
  }

  lemma SweptWaits(s: State, now: ClockTime)
    requires Places(s) && Family(s) && Waits(s)
    ensures Waits(Swept(s, now))
  {
    var t := Swept(s, now);
    SweptPlaces(s, now);
    forall pid | pid in t.waiting && t.waiting[pid].status.WaitingForPid?
      ensures pid in s.waiting && t.waiting[pid].status == s.waiting[pid].status
      ensures t.waiting[pid].context == s.waiting[pid].context
      ensures var c := t.waiting[pid].status.pid; c in s.parents && s.parents[c] == pid ==> Exists(t, c)
    {
      SweptKeeps(s, now, pid);
      var c := t.waiting[pid].status.pid;
      if e :| e in s.exited && e.pid == c && s.parents[c] == pid {
        FoundOwn(s, s.exited, pid, e);
      }
    }
  }

  lemma SweptSaves(s: State, now: ClockTime)
    requires Places(s) && Saves(s)
    ensures Saves(Swept(s, now))
  {
    var t := Swept(s, now);
    hide Swept, Woken, SweptProc, IsSaved;
    SweptPlaces(s, now);
    if s.cpuContext.Some? {
      CurrentSwept(s, now);
    }
    forall pid | Exists(s, pid) ensures Exists(t, pid) && IsSaved(t, pid, ProcOf(t, pid)) {
      SweptIsSaved(s, now, pid);
    }
    assert forall pid :: pid in t.waiting ==> Exists(s, pid) && ProcOf(t, pid) == t.waiting[pid];
    assert forall pid :: pid in t.scheduled ==> Exists(s, pid) && ProcOf(t, pid) == t.scheduled[pid];
  }

  lemma CurrentSwept(s: State, now: ClockTime)
    requires Places(s) && s.cpuContext.Some?
    ensures s.current in Swept(s, now).waiting
    ensures Swept(s, now).waiting[s.current].context == s.waiting[s.current].context
  {
    RunningStays(s, now);
    SweptIs(s, now, s.current);
    hide Swept, Woken;
  }

  lemma SweptIsSaved(s: State, now: ClockTime, pid: nat)
    requires Places(s) && Saves(s) && Exists(s, pid)
    ensures Exists(Swept(s, now), pid) && IsSaved(Swept(s, now), pid, ProcOf(Swept(s, now), pid))
  {
    hide Found, ExitsOf, Swept, Wakes;
    SweptIs(s, now, pid);
  }

  lemma SweptInv(s: State, now: ClockTime)
    requires Inv(s)
    ensures Inv(Swept(s, now))
  {
    hide Swept, Places, Counters, Family, Waits, Saves;
    SweptPlaces(s, now);
    SweptCounters(s, now);
    SweptFamily(s, now);
    SweptWaits(s, now);
    SweptSaves(s, now);
  }

  // The dispatch.

  /** All of the invariant but the counters, which a reset lifts above the ceiling. */
  ghost predicate InvButCounters(s: State) {
    && Places(s) && Family(s) && Waits(s) && Saves(s)
    && (forall pid :: pid in s.scheduled ==> Level(s.scheduled[pid].priority))
    && (forall pid :: pid in s.waiting ==> Level(s.waiting[pid].priority))
  }

  lemma ResetPlaces(s: State)
    requires Places(s) && Counters(s)
    ensures Places(Reset(s))
    ensures forall pid :: pid in Reset(s).scheduled ==> Level(Reset(s).scheduled[pid].priority)
  {}

  lemma ResetFamily(s: State)
    requires Places(s) && Family(s) && Waits(s)
    ensures Family(Reset(s)) && Waits(Reset(s))
  {
    SameGone(s, Reset(s));
    hide GoneChild, Exiting;
  }

  lemma ResetSaves(s: State)
    requires Places(s) && Saves(s)
    ensures Saves(Reset(s))
  {}

  lemma ResetInv(s: State)
    requires Inv(s)
    ensures InvButCounters(Reset(s))
  {
    hide Places, Counters, Family, Waits, Saves;
    ResetPlaces(s);
    ResetFamily(s);
    ResetSaves(s);
    LevelsOk(s);
  }

  lemma LevelsOk(s: State)
    requires Counters(s)
    ensures forall pid :: pid in s.scheduled ==> Level(s.scheduled[pid].priority)
    ensures forall pid :: pid in s.waiting ==> Level(s.waiting[pid].priority)
  {}

  /** What a process is picked from: its counters are within five of each other, and high enough. */
  lemma ReadyInv(s: State, now: ClockTime, choice: nat)
    requires Inv(s) && IsTop(Ready(s, now), choice)
    ensures var t := Ready(s, now);
      && InvButCounters(t) && MIN_PRIORITY_VALUE <= t.scheduled[choice].counter <= U64_MAX
      && (forall pid :: pid in t.scheduled ==> t.scheduled[choice].counter - 5 <= t.scheduled[pid].counter)
  {
    hide Swept, Places, Family, Waits, Saves;
    SweptInv(s, now);
    if Low(Swept(s, now)) {
      ResetInv(Swept(s, now));
    }
  }

  lemma DispatchPlaces(s: State, pid: nat)
    requires InvButCounters(s) && s.cpuContext.None? && IsTop(s, pid)
    requires MIN_PRIORITY_VALUE <= s.scheduled[pid].counter <= U64_MAX
    requires forall q :: q in s.scheduled ==> s.scheduled[pid].counter - 5 <= s.scheduled[q].counter
    ensures Places(Dispatched(s, pid)) && Counters(Dispatched(s, pid))
  {
    hide Family, Waits, Saves;
  }

  lemma DispatchFamily(s: State, pid: nat)
    requires Places(s) && Family(s) && Waits(s) && s.cpuContext.None?
    requires CanDispatch(s, pid)
    ensures Family(Dispatched(s, pid)) && Waits(Dispatched(s, pid))
  {
    SameGone(s, Dispatched(s, pid));
    hide GoneChild, Exiting;
  }

  lemma DispatchSaves(s: State, pid: nat)
    requires Places(s) && Saves(s) && s.cpuContext.None?
    requires CanDispatch(s, pid)
    ensures Saves(Dispatched(s, pid))
  {}

  lemma RoundInv(s: State, now: ClockTime, choice: nat)
    requires Inv(s) && Enabled(s, Round(now, choice))
    requires Ready(s, now).scheduled == map[] || CanDispatch(Ready(s, now), choice)
    ensures Inv(AfterRound(s, now, choice))
  {
    var t := Ready(s, now);
    hide Swept, Dispatched, Places, Family, Waits, Saves;
    PointIs(s);
    if t.scheduled == map[] {
      SweptInv(s, now);
      NotLow(Swept(s, now));
    } else {
      CanDecrement(s, now, choice);
      ReadyInv(s, now, choice);
      DispatchPlaces(t, choice);
      DispatchFamily(t, choice);
      DispatchSaves(t, choice);
    }
  }

  lemma NotLow(s: State)
    requires ResetIfLow(s).scheduled == map[]
    ensures ResetIfLow(s) == s
  {
    assert Low(s) ==> Reset(s).scheduled.Keys == s.scheduled.Keys;
  }

  lemma PointIs(s: State)
    requires Places(s)
    ensures (s.point == LoopTop <==> s.cpuContext.None?) && (s.point == InUser <==> InProcess(s))
  {}

  /** Every step keeps the invariant. */
  lemma StepInv(s: State, a: Action)
    requires Inv(s) && Enabled(s, a) && Works(s, a)
    ensures Inv(Step(s, a))
  {
    hide Swept, Dispatched, Places, Counters, Family, Waits, Saves, Yielded, Blocked, ExitedWith, Entered, Pushed;
    hide WithPriority, WithoutChildExit, AfterRound;
    PointIs(s);
    match a
    case Push(pid, p) =>
      PushPlaces(s, pid, p);
      PushFamily(s, pid, p);
      PushSaves(s, pid, p);
    case Round(now, choice) =>
      RoundInv(s, now, choice);
    case Enter =>
      EnterPlaces(s);
      EnterFamily(s);
      EnterSaves(s);
    case Compute(next) =>
      ComputeInv(s, next);
    case Yield =>
      if InProcess(s) {
        YieldPlaces(s);
        YieldFamily(s);
        YieldSaves(s);
      }
    case Sleep(now, time) =>
      BlockPlaces(s, WaitingForTime(now.Plus(time)));
      BlockFamily(s, WaitingForTime(now.Plus(time)));
      BlockSaves(s, WaitingForTime(now.Plus(time)));
    case WaitFor(pid) =>
      if Exists(s, pid) {
        BlockPlaces(s, WaitingForPid(pid));
        BlockFamily(s, WaitingForPid(pid));
        BlockSaves(s, WaitingForPid(pid));
      }
    case ExitNow(code) =>
      ExitPlaces(s, code);
      ExitFamily(s, code);
      ExitSaves(s, code);
    case SetPriority(pid, level) =>
      PriorityPlaces(s, pid, level);
      PriorityCounters(s, pid, level);
      PriorityFamily(s, pid, level);
      PrioritySaves(s, pid, level);
    case TakeChildExit(pid) =>
      TakePlaces(s, pid);
      TakeFamily(s, pid);
      TakeSaves(s, pid);
  }

  lemma ComputeInv(s: State, next: Live)
    requires Inv(s) && Enabled(s, Compute(next))
    ensures Inv(s.(live := next))
  {
    var t := s.(live := next);
    SameGone(s, t);
    hide GoneChild, Exiting;
  }
}
