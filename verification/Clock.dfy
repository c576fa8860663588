/**
 Times of the system clock, and the elapsed time accumulated over a run of ticks and device switches.
 */
module Clock {
  import opened Options

  const NANOS_PER_SEC: nat := 1_000_000_000

  /** Seconds since a fixed point in time, and nanoseconds added to them. */
  datatype ClockTime = ClockTime(nanoseconds: nat, seconds: nat)
  {
    function AsNanos(): nat {
      seconds * 1_000_000_000 + nanoseconds
    }

    /** The nanoseconds do not make up another second. */
    predicate Normal() {
      nanoseconds < NANOS_PER_SEC
    }

    /** Compares the seconds, and then the nanoseconds. */
    predicate AtMost(rhs: ClockTime) {
      seconds < rhs.seconds || (seconds == rhs.seconds && nanoseconds <= rhs.nanoseconds)
    }

    function Plus(rhs: ClockTime): (r: ClockTime)
      ensures r.Normal() && r.AsNanos() == AsNanos() + rhs.AsNanos()
    {
      var nanos := nanoseconds + rhs.nanoseconds;
      ClockTime(nanos % NANOS_PER_SEC, seconds + rhs.seconds + nanos / NANOS_PER_SEC)
    }

    /** Borrows a second where the nanoseconds need it; no subtraction goes below zero. */
    function Minus(rhs: ClockTime): (r: ClockTime)
      requires Normal() && rhs.Normal() && rhs.AtMost(this)
      ensures r.Normal() && r.AsNanos() == AsNanos() - rhs.AsNanos()
    {
      if nanoseconds < rhs.nanoseconds
      then ClockTime(nanoseconds + NANOS_PER_SEC - rhs.nanoseconds, seconds - rhs.seconds - 1)
      else ClockTime(nanoseconds - rhs.nanoseconds, seconds - rhs.seconds)
    }
  }

  const ZERO: ClockTime := ClockTime(0, 0)

  /** The order of normal times is the order of their nanoseconds. */
  lemma OrderIsNanos(a: ClockTime, b: ClockTime)
    requires a.Normal() && b.Normal()
    ensures a.AtMost(b) <==> a.AsNanos() <= b.AsNanos()
    ensures a == b <==> a.AsNanos() == b.AsNanos()
  {}

  /** The order is exactly what keeps the subtraction of seconds from underflowing. */
  lemma NoUnderflow(a: ClockTime, b: ClockTime)
    requires a.Normal() && b.Normal()
    ensures a.seconds - b.seconds - (if a.nanoseconds < b.nanoseconds then 1 else 0) >= 0 <==> b.AtMost(a)
  {}

  /** Adding the difference to the earlier time gives the later one. */
  lemma MinusPlus(a: ClockTime, b: ClockTime)
    requires a.Normal() && b.Normal() && b.AtMost(a)
    ensures b.Plus(a.Minus(b)) == a
  {
    OrderIsNanos(b.Plus(a.Minus(b)), a);
  }

  /** What happens to the system time: a tick, or the choice of a device.  Readings are of the device in use. */
  datatype ClockEvent =
    | Tick(now: ClockTime)
    | Select(device: nat, now: ClockTime, other: ClockTime)

  datatype TimeState = TimeState(lastTick: ClockTime, offset: ClockTime, device: Option<nat>)
  {
    /** A reading of the device in use that does not go back. */
    predicate Fits(now: ClockTime) {
      now.Normal() && (device.Some? ==> lastTick.AtMost(now))
    }

    predicate Normal() {
      lastTick.Normal() && offset.Normal()
    }
  }

  predicate EventFits(s: TimeState, e: ClockEvent) {
    s.Fits(e.now) && (e.Select? ==> e.other.Normal())
  }

  /** The state after one event. */
  function Next(s: TimeState, e: ClockEvent): (r: TimeState)
    requires s.Normal() && EventFits(s, e)
    ensures r.Normal()
  {
    match e
    case Tick(now) =>
      if s.device.None? then s else TimeState(now, s.offset.Plus(now.Minus(s.lastTick)), s.device)
    case Select(d, now, other) =>
      if s.device == Some(d) then s
      else if s.device.Some? then TimeState(other, s.offset.Plus(now.Minus(s.lastTick)), Some(d))
      else TimeState(other, ZERO, Some(d))
  }

  const START: TimeState := TimeState(ZERO, ZERO, None)

  /** A run: every event is applied to a state it fits, so no reading goes back while its device is in use. */
  ghost predicate IsRun(states: seq<TimeState>, events: seq<ClockEvent>) {
    && |states| == |events| + 1 && states[0] == START
    && forall i :: 0 <= i < |events| ==>
         states[i].Normal() && EventFits(states[i], events[i]) && states[i + 1] == Next(states[i], events[i])
  }

  /** The time one device was in use: its first and its last reading. */
  datatype Stint = Stint(device: nat, first: ClockTime, last: ClockTime)

  function StintsNext(stints: seq<Stint>, e: ClockEvent): seq<Stint> {
    var started := if e.Select? then [Stint(e.device, e.other, e.other)] else [];
    if stints == [] then started else
    var current := stints[|stints| - 1];
    if e.Select? && e.device == current.device then stints
    else stints[..|stints| - 1] + [current.(last := e.now)] + started
  }

  /** The stints of a run, read off the events alone. */
  function Stints(events: seq<ClockEvent>): seq<Stint> {
    if events == [] then [] else StintsNext(Stints(events[..|events| - 1]), events[|events| - 1])
  }

  function Elapsed(stints: seq<Stint>): int {
    if stints == [] then 0
    else Elapsed(stints[..|stints| - 1]) + stints[|stints| - 1].last.AsNanos() - stints[|stints| - 1].first.AsNanos()
  }

  /** The state and the stints tell the same story. */
  predicate Agrees(s: TimeState, stints: seq<Stint>) {
    && s.offset.AsNanos() == Elapsed(stints)
    && (s.device.None? <==> stints == [])
    && (stints != [] ==> s.device == Some(stints[|stints| - 1].device) && s.lastTick == stints[|stints| - 1].last)
  }

  lemma AgreesNext(s: TimeState, stints: seq<Stint>, e: ClockEvent)
    requires s.Normal() && EventFits(s, e) && Agrees(s, stints)
    ensures Agrees(Next(s, e), StintsNext(stints, e))
  {
    if stints != [] {
      var (n, current) := (|stints| - 1, stints[|stints| - 1]);
      var closed := stints[..n] + [current.(last := e.now)];
      assert closed[..n] == stints[..n];
      assert Elapsed(closed) == Elapsed(stints[..n]) + e.now.AsNanos() - current.first.AsNanos();
      assert closed + [] == closed;
      if e.Select? {
        assert (closed + [Stint(e.device, e.other, e.other)])[..n + 1] == closed;
      }
    } else if e.Select? {
      assert [Stint(e.device, e.other, e.other)][..0] == [];
    }
  }

  /** The offset is the time elapsed over all stints, however ticks and switches are mixed. */
  lemma {:induction false} OffsetIsElapsed(states: seq<TimeState>, events: seq<ClockEvent>, k: nat)
    requires IsRun(states, events) && k <= |events|
    ensures states[k].Normal() && Agrees(states[k], Stints(events[..k]))
  {
    if k > 0 {
      OffsetIsElapsed(states, events, k - 1);
      assert events[..k][..k - 1] == events[..k - 1];
      AgreesNext(states[k - 1], Stints(events[..k - 1]), events[k - 1]);
    }
  }

  /** System time never runs backwards, over any run. */
  lemma {:induction false} OffsetNeverDecreases(states: seq<TimeState>, events: seq<ClockEvent>, i: nat, k: nat)
    requires IsRun(states, events) && i <= k <= |events|
    ensures states[i].offset.AsNanos() <= states[k].offset.AsNanos()
    decreases k
  {
    hide Next, EventFits, Agrees, Stints, Elapsed, ClockTime.AsNanos;
    if i < k {
      OffsetNeverDecreases(states, events, i, k - 1);
      NothingElapsed(states, events, k - 1);
      NextGrows(states[k - 1], events[k - 1]);
    }
  }

  lemma NothingElapsed(states: seq<TimeState>, events: seq<ClockEvent>, k: nat)
    requires IsRun(states, events) && k <= |events|
    ensures states[k].Normal() && (states[k].device.None? ==> states[k].offset.AsNanos() == 0)
  {
    hide IsRun, Next, EventFits, Stints, ClockTime.AsNanos;
    OffsetIsElapsed(states, events, k);
  }

  lemma NextGrows(s: TimeState, e: ClockEvent)
    requires s.Normal() && EventFits(s, e) && (s.device.None? ==> s.offset.AsNanos() == 0)
    ensures s.offset.AsNanos() <= Next(s, e).offset.AsNanos()
  {}

  /** The accumulator itself, updated in place. */
  class SystemTime {
    var startUnix: ClockTime
    var lastTick: ClockTime
    var startupOffset: ClockTime
    var device: Option<nat>

    ghost function State(): TimeState
      reads this
    {
      TimeState(lastTick, startupOffset, device)
    }

    constructor (timestamp: nat)
      ensures State() == START && startUnix == ClockTime(0, timestamp)
    {
      startUnix, lastTick, startupOffset, device := ClockTime(0, timestamp), ZERO, ZERO, None;
    }

    /** `now` is the reading of the device in use, if there is one. */
    method TickTo(now: ClockTime)
      requires State().Normal() && EventFits(State(), Tick(now))
      modifies this
      ensures State() == Next(old(State()), Tick(now)) && startUnix == old(startUnix)
    {
      if device.Some? {
        var diff := now.Minus(lastTick);
        startupOffset := startupOffset.Plus(diff);
        lastTick := now;
      }
    }

    /** Goes over to another device, read as `other`; the first device also sets the time of the start. */
    method UpdateDevice(d: nat, now: ClockTime, other: ClockTime, timestamp: nat)
      requires State().Normal() && EventFits(State(), Select(d, now, other))
      modifies this
      ensures State() == Next(old(State()), Select(d, now, other))
      ensures startUnix == if old(device).None? then ClockTime(0, timestamp) else old(startUnix)
    {
      if device.Some? {
        if device.value == d {
          return;
        }
        var diff := now.Minus(lastTick);
        startupOffset := startupOffset.Plus(diff);
        device := Some(d);
        lastTick := other;
      } else {
        lastTick := other;
        device := Some(d);
        startupOffset := ZERO;
        startUnix := ClockTime(0, timestamp);
      }
    }

    function TimeSinceUnixEpoch(): (r: ClockTime)
      reads this
      ensures r.AsNanos() == startUnix.AsNanos() + startupOffset.AsNanos()
    {
      startUnix.Plus(startupOffset)
    }
  }
}
