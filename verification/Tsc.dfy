/**
 The time stamp counter as a clock: cycles are scaled to nanoseconds with a 32-bit fraction, and the
 result is moved by an offset that may wrap around.
 */
module Tsc {
  import opened Arithmetic
  import opened Clock
  import opened Options

  const U64: nat := 0x1_0000_0000_0000_0000

  /** The product before it is cut to 64 bits. */
  function FullNs(cycles: nat, scale: nat): nat {
    cycles * scale / 0x1_0000_0000
  }

  function CyclesToNs(cycles: nat, scale: nat): nat {
    FullNs(cycles, scale) % U64
  }

  function ScaleOf(ns: nat, cycles: nat): (s: int)
    requires cycles > 0
    ensures s >= 0
  {
    DivBounds(ns * 0x1_0000_0000, cycles);
    ns * 0x1_0000_0000 / cycles
  }

  /** Fixed-point time does not run ahead, and lags by less than one nanosecond and one part in 2^32. */
  lemma FullNsBounds(c: nat, ns: nat, cycles: nat)
    requires cycles > 0
    ensures var r := FullNs(c, ScaleOf(ns, cycles));
      r * cycles <= c * ns && c * ns * 0x1_0000_0000 < (r + 1) * cycles * 0x1_0000_0000 + c * cycles
  {
    var s := ScaleOf(ns, cycles);
    var r := FullNs(c, s);
    DivBounds(ns * 0x1_0000_0000, cycles);
    assert s * cycles <= ns * 0x1_0000_0000 < (s + 1) * cycles;
    assert r * 0x1_0000_0000 <= c * s < (r + 1) * 0x1_0000_0000;
    Below(c, s, r, ns, cycles);
    Above(c, s, r, ns, cycles);
  }

  lemma Below(c: nat, s: nat, r: nat, ns: nat, cycles: nat)
    requires s * cycles <= ns * 0x1_0000_0000 && r * 0x1_0000_0000 <= c * s
    ensures r * cycles <= c * ns
  {
    calc {
      (r * cycles) * 0x1_0000_0000;
      (r * 0x1_0000_0000) * cycles;
    <= { MulMonotone(r * 0x1_0000_0000, c * s, cycles); }
      (c * s) * cycles;
      (s * cycles) * c;
    <= { MulMonotone(s * cycles, ns * 0x1_0000_0000, c); }
      (ns * 0x1_0000_0000) * c;
      (c * ns) * 0x1_0000_0000;
    }
  }

  lemma Above(c: nat, s: nat, r: nat, ns: nat, cycles: nat)
    requires cycles > 0 && ns * 0x1_0000_0000 < (s + 1) * cycles && c * s < (r + 1) * 0x1_0000_0000
    ensures c * ns * 0x1_0000_0000 < (r + 1) * cycles * 0x1_0000_0000 + c * cycles
  {
    calc {
      c * ns * 0x1_0000_0000;
      (ns * 0x1_0000_0000) * c;
    <= { MulMonotone(ns * 0x1_0000_0000, (s + 1) * cycles, c); }
      ((s + 1) * cycles) * c;
      (c * s) * cycles + c * cycles;
    <= { MulMonotone(c * s, (r + 1) * 0x1_0000_0000 - 1, cycles); }
      ((r + 1) * 0x1_0000_0000 - 1) * cycles + c * cycles;
      (r + 1) * cycles * 0x1_0000_0000 - cycles + c * cycles;
    }
  }

  /** `r` lags behind the exact `c * ns / cycles` by less than `c / 2^32 + 1`. */
  predicate LagsLittle(r: nat, c: nat, ns: nat, cycles: nat) {
    c * ns * 0x1_0000_0000 < (r + 1) * cycles * 0x1_0000_0000 + c * cycles
  }

  /** The 64-bit result never exceeds the exact time, and is close to it exactly when nothing was cut off. */
  lemma ErrorBound(c: nat, ns: nat, cycles: nat)
    requires cycles > 0 && c < U64
    ensures var s := ScaleOf(ns, cycles);
      && CyclesToNs(c, s) * cycles <= c * ns
      && (LagsLittle(CyclesToNs(c, s), c, ns, cycles) <==> FullNs(c, s) < U64)
  {
    var s := ScaleOf(ns, cycles);
    var (full, r) := (FullNs(c, s), CyclesToNs(c, s));
    FullNsBounds(c, ns, cycles);
    MulMonotone(r, full, cycles);
    if full >= U64 {
      CutOff(full, r, c, ns, cycles);
    }
  }

  lemma CutOff(full: nat, r: nat, c: nat, ns: nat, cycles: nat)
    requires full * cycles <= c * ns && r + 0x1_0000_0000_0000_0000 <= full && c < 0x1_0000_0000_0000_0000
    ensures !LagsLittle(r, c, ns, cycles)
  {
    MulMonotone(r + 0x1_0000_0000_0000_0000, full, cycles);
    MulMonotone(c, 0x1_0000_0000_0000_0000, cycles);
    assert (r + 0x1_0000_0000_0000_0000) * cycles == (r + 1) * cycles + 0xFFFF_FFFF_FFFF_FFFF * cycles;
  }

  /** More cycles are never an earlier time, as long as nothing is cut off. */
  lemma Monotone(c: nat, d: nat, scale: nat)
    requires c <= d
    ensures FullNs(c, scale) <= FullNs(d, scale)
    ensures FullNs(d, scale) < U64 ==> CyclesToNs(c, scale) <= CyclesToNs(d, scale)
  {
    MulMonotone(c, d, scale);
  }

  /** Differences of scaled times are scaled differences, up to one nanosecond. */
  lemma ElapsedNs(c: nat, e: nat, scale: nat)
    ensures FullNs(e, scale) <= FullNs(c + e, scale) - FullNs(c, scale) <= FullNs(e, scale) + 1
  {
    assert (c + e) * scale == c * scale + e * scale;
  }

  /** A moment of the base clock and of the counter. */
  datatype SyncPoint = SyncPoint(nanos: nat, cycles: nat)

  /** One attempt at reading both: the counter before and after the base clock. */
  datatype Sample = Sample(before: nat, time: ClockTime, after: nat)

  function Width(s: Sample): int {
    s.after - s.before
  }

  /**
   Takes the tightest of up to ten attempts, and stops at the first one that is good enough.  Attempts that
   took as long as the counter can tell are skipped; if all ten did, the point is zero.
   */
  method SyncTimePoint(samples: seq<Sample>, deviceLatency: nat, latency: nat)
    returns (point: SyncPoint, used: nat, best: Option<nat>)
    requires |samples| == 10
    requires forall i :: 0 <= i < 10 ==> samples[i].before <= samples[i].after < samples[i].before + U64
    ensures used <= 10
    ensures best.None? <==> used == 10 && forall i :: 0 <= i < 10 ==> Width(samples[i]) == U64 - 1
    ensures best.None? ==> point == SyncPoint(0, 0)
    ensures best.Some? ==>
      && best.value < used && point == SyncPoint(samples[best.value].time.AsNanos(),
                                                 samples[best.value].before + latency)
      && (forall i :: 0 <= i < used ==> Width(samples[best.value]) <= Width(samples[i]))
    ensures forall i :: 0 <= i < used - 1 ==>
      Width(samples[i]) > deviceLatency + deviceLatency / 2 || Width(samples[i]) == U64 - 1
    ensures used == 10 || (best.Some? && Width(samples[best.value]) <= deviceLatency + deviceLatency / 2)
  {
    var goodLatency := deviceLatency + deviceLatency / 2;
    var minCycles := U64 - 1;
    point, used, best := SyncPoint(0, 0), 0, None;
    while used < 10
      invariant used <= 10
      invariant best.None? ==> minCycles == U64 - 1 && point == SyncPoint(0, 0)
      invariant best.Some? ==>
        && best.value < used && minCycles == Width(samples[best.value]) < U64 - 1
        && point == SyncPoint(samples[best.value].time.AsNanos(), samples[best.value].before + latency)
      invariant forall i :: 0 <= i < used ==>
        minCycles <= Width(samples[i]) && (Width(samples[i]) > goodLatency || Width(samples[i]) == U64 - 1)
    {
      var s := samples[used];
      var diff := s.after - s.before;
      used := used + 1;
      if diff >= minCycles {
        continue;
      }
      minCycles := diff;
      point := SyncPoint(s.time.seconds * NANOS_PER_SEC + s.time.nanoseconds, s.before + latency);
      best := Some(used - 1);
      if diff <= goodLatency {
        break;
      }
    }
  }

  /** The calibrated counter. */
  class TscClock {
    var startTime: nat
    var scale: nat

    predicate Valid()
      reads this
    {
      startTime < U64 && scale < U64
    }

    constructor ()
      ensures Valid() && startTime == 0 && scale == 0
    {
      startTime, scale := 0, 0;
    }

    /** The nanoseconds at a cycle count. */
    function TimeNanos(cycles: nat): (r: nat)
      reads this
      ensures r < U64
    {
      (startTime + CyclesToNs(cycles, scale)) % U64
    }

    /**
     Fits the clock to two moments.  From then on it reads the first moment exactly, and every other one
     by the scaled distance from it, whichever way the offset wraps.
     */
    method Calibrate(first: SyncPoint, last: SyncPoint) returns (ok: bool)
      requires first.nanos <= last.nanos < U64 && first.cycles < last.cycles < U64
      requires Valid()
      modifies this
      ensures ok <==> ScaleOf(last.nanos - first.nanos, last.cycles - first.cycles) < U64
      ensures ok ==> Valid() && scale == ScaleOf(last.nanos - first.nanos, last.cycles - first.cycles)
      ensures ok ==> TimeNanos(first.cycles) == first.nanos
      ensures ok ==> forall c: nat ::
        TimeNanos(c) == (first.nanos + FullNs(c, scale) - FullNs(first.cycles, scale)) % U64
    {
      hide FullNs, ScaleOf;
      var scaled := ScaleOf(last.nanos - first.nanos, last.cycles - first.cycles);
      ok := scaled < U64;
      if ok {
        startTime := (first.nanos - CyclesToNs(first.cycles, scaled)) % U64;
        scale := scaled;
        forall c: nat
          ensures TimeNanos(c) == (first.nanos + FullNs(c, scale) - FullNs(first.cycles, scale)) % U64
        {
          WrapsCancel(first.nanos, FullNs(first.cycles, scale), FullNs(c, scale));
        }
      }
    }
  }

  /** At the second moment the clock is off by at most one nanosecond and one part in 2^32 of the distance. */
  lemma ReadsLastMoment(first: SyncPoint, last: SyncPoint, reading: nat)
    requires first.nanos <= last.nanos < U64 && first.cycles < last.cycles < U64
    requires ScaleOf(last.nanos - first.nanos, last.cycles - first.cycles) < U64
    requires var s := ScaleOf(last.nanos - first.nanos, last.cycles - first.cycles);
      reading == first.nanos + FullNs(last.cycles, s) - FullNs(first.cycles, s)
    ensures reading <= last.nanos + 1
    ensures (last.nanos - reading - 1) * 0x1_0000_0000 < last.cycles - first.cycles
  {
    var (ns, cycles) := (last.nanos - first.nanos, last.cycles - first.cycles);
    var s := ScaleOf(ns, cycles);
    ElapsedNs(first.cycles, cycles, s);
    FullNsBounds(cycles, ns, cycles);
    var r := FullNs(cycles, s);
    Cancel(r, ns, cycles);
  }

  lemma Cancel(r: nat, ns: nat, cycles: nat)
    requires cycles > 0 && r * cycles <= cycles * ns
    requires cycles * ns * 0x1_0000_0000 < (r + 1) * cycles * 0x1_0000_0000 + cycles * cycles
    ensures r <= ns && (ns - r - 1) * 0x1_0000_0000 < cycles
  {
    if r > ns {
      MulMonotone(ns + 1, r, cycles);
    }
    var d := (ns - r - 1) * 0x1_0000_0000;
    assert d * cycles == cycles * ns * 0x1_0000_0000 - (r + 1) * cycles * 0x1_0000_0000;
    if d >= cycles {
      MulMonotone(cycles, d, cycles);
    }
  }

  /** Wrapping the offset and wrapping the sum cancel. */
  lemma WrapsCancel(n: int, a: int, b: int)
    ensures ((n - a % U64) % U64 + b % U64) % U64 == (n + b - a) % U64
  {
    var (k, l) := (a / U64, b / U64);
    assert n - a % U64 == n - a + k * U64 && b % U64 == b - l * U64;
    Periodic(n - a, k);
    Periodic(n - a, (n - a) / U64);
    var m := (n - a) % U64;
    assert m == n - a - (n - a) / U64 * U64;
    Periodic(n + b - a, -((n - a) / U64) - l);
  }

  lemma Periodic(x: int, k: int)
    ensures (x + k * 0x1_0000_0000_0000_0000) % 0x1_0000_0000_0000_0000 == x % 0x1_0000_0000_0000_0000
  {}
}
