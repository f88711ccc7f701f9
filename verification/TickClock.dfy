/** Converting time-stamp counter ticks to wall-clock nanoseconds by two samples of both clocks. */
module TickClock {
  import opened CheckPoint
  import opened Modular

  const TWO_63: int := 0x8000_0000_0000_0000
  const TWO_64: int := 0x1_0000_0000_0000_0000
  const TWO_127: int := TWO_63 * TWO_64

  type i64 = n: int | -0x8000_0000_0000_0000 <= n < 0x8000_0000_0000_0000

  datatype SyncPoint = SyncPoint(tick: Tick, epochTime: i64)

  // ------------------------------------------------------------------ arithmetic

  /** Unsigned 64-bit subtraction. */
  function WrapSub(a: Tick, b: Tick): Tick {
    if a >= b then a - b else a - b + TWO_64
  }

  /** A signed 64-bit result in two's complement. */
  function WrapInt64(n: int): i64
    requires -TWO_64 < n < TWO_64
  {
    if n >= TWO_63 then n - TWO_64 else if n < -TWO_63 then n + TWO_64 else n
  }

  /** Division that rounds towards zero. */
  function TruncDiv(a: int, d: nat): int
    requires d > 0
  {
    if a >= 0 then a / d else -(-a / d)
  }

  function ClampToInt64(value: int): i64 {
    if value > TWO_63 - 1 then TWO_63 - 1 else if value < -TWO_63 then -TWO_63 else value
  }

  function SaturatingAdd(lhs: i64, rhs: i64): i64 {
    ClampToInt64(lhs + rhs)
  }

  function TickDelta(tick: Tick, anchorTick: Tick): int {
    var unsignedDelta := WrapSub(tick, anchorTick);
    if unsignedDelta <= TWO_63 - 1 then unsignedDelta else -(WrapSub(anchorTick, tick) as int)
  }

  function ScaledNanoseconds(ticks: int, scaleNanoseconds: i64, scaleTicks: Tick): i64
    requires scaleTicks > 0
  {
    ClampToInt64(TruncDiv(ticks * scaleNanoseconds, scaleTicks))
  }

  /** The tick at signed distance `d` from the anchor. */
  function TickAt(anchorTick: Tick, d: int): Tick
    requires -TWO_63 <= d < TWO_63
  {
    if anchorTick + d < 0 then anchorTick + d + TWO_64
    else if anchorTick + d >= TWO_64 then anchorTick + d - TWO_64
    else anchorTick + d
  }

  /** `tickDelta` is the signed distance: the one value in [-2^63, 2^63) that leads from the anchor to the tick. */
  lemma TickDeltaIsSignedDistance(tick: Tick, anchorTick: Tick, d: int)
    requires -TWO_63 <= d < TWO_63
    ensures TickDelta(tick, anchorTick) == d <==> TickAt(anchorTick, d) == tick
  {
  }

  lemma {:induction false} TruncDivMonotone(a: int, b: int, d: nat)
    requires a <= b && d > 0
    ensures TruncDiv(a, d) <= TruncDiv(b, d)
  {
    if a >= 0 { DivMonotone(a, b, d); }
    else if b < 0 { DivMonotone(-b, -a, d); }
    else { DivMonotone(0, b, d); DivMonotone(0, -a, d); DivModUnique(0, d, 0, 0); }
  }

  lemma TruncDivExact(k: int, d: nat)
    requires d > 0
    ensures TruncDiv(k * d, d) == k
  {
    if k >= 0 { DivModUnique(k * d, d, k, 0); MulMonotone(0, k, d); }
    else { MulMonotone(k, -1, d); assert -(k * d) == (-k) * d; DivModUnique((-k) * d, d, -k, 0); }
  }

  // ------------------------------------------------------------------ the clock

  datatype Clock = Clock(anchor: SyncPoint, last: SyncPoint, scaleTicks: Tick, scaleNanoseconds: i64, sampleCount: Tick)

  function Fresh(sample: SyncPoint): Clock {
    Clock(sample, sample, 0, 0, 1)
  }

  predicate Calibrated(c: Clock) {
    c.scaleTicks > 0
  }

  /** A sample makes a new scale when both clocks moved forward since the last one. */
  predicate Accepts(c: Clock, sample: SyncPoint) {
    c.sampleCount > 0 && WrapSub(sample.tick, c.last.tick) > 0 && WrapInt64(sample.epochTime - c.last.epochTime) > 0
  }

  function Sync(c: Clock, sample: SyncPoint): Clock {
    var moved := Clock(sample, sample, c.scaleTicks, c.scaleNanoseconds, (c.sampleCount + 1) % TWO_64);
    if Accepts(c, sample) then
      moved.(scaleTicks := WrapSub(sample.tick, c.last.tick),
             scaleNanoseconds := WrapInt64(sample.epochTime - c.last.epochTime))
    else moved
  }

  /** `fallback` is what the floating-point conversion would answer before any calibration. */
  function ToNanoseconds(c: Clock, tick: Tick, fallback: i64): i64 {
    SaturatingAdd(c.anchor.epochTime,
      if c.scaleTicks > 0 && c.scaleNanoseconds > 0
      then ScaledNanoseconds(TickDelta(tick, c.anchor.tick), c.scaleNanoseconds, c.scaleTicks)
      else fallback)
  }

  class TickClock {
    var anchor: SyncPoint
    var last: SyncPoint
    var scaleTicks: Tick
    var scaleNanoseconds: i64
    var sampleCount: Tick

    ghost function View(): Clock
      reads this
    {
      Clock(anchor, last, scaleTicks, scaleNanoseconds, sampleCount)
    }

    constructor (sample: SyncPoint)
      ensures View() == Fresh(sample)
    {
      anchor, last, scaleTicks, scaleNanoseconds, sampleCount := sample, sample, 0, 0, 1;
    }

    method SyncWith(sample: SyncPoint)
      modifies this
      ensures View() == Sync(old(View()), sample)
    {
      var count := sampleCount;
      if count > 0 {
        var elapsedTicks := WrapSub(sample.tick, last.tick);
        var elapsedNanoseconds := WrapInt64(sample.epochTime - last.epochTime);
        if elapsedTicks > 0 && elapsedNanoseconds > 0 {
          scaleTicks := elapsedTicks;
          scaleNanoseconds := elapsedNanoseconds;
        }
      }
      last := sample;
      anchor := sample;
      sampleCount := (count + 1) % TWO_64;
    }

    method Convert(tick: Tick, fallback: i64) returns (nanoseconds: i64)
      ensures nanoseconds == ToNanoseconds(View(), tick, fallback)
    {
      var offset := fallback;
      if scaleTicks > 0 && scaleNanoseconds > 0 {
        offset := ScaledNanoseconds(TickDelta(tick, anchor.tick), scaleNanoseconds, scaleTicks);
      }
      nanoseconds := SaturatingAdd(anchor.epochTime, offset);
    }
  }

  // ------------------------------------------------------------------ every state of a clock

  predicate ClockOk(c: Clock) {
    c.anchor == c.last && c.scaleNanoseconds >= 0 && (c.scaleTicks == 0 <==> c.scaleNanoseconds == 0)
  }

  function SyncAll(first: SyncPoint, samples: seq<SyncPoint>): Clock {
    if samples == [] then Fresh(first) else Sync(SyncAll(first, samples[..|samples| - 1]), samples[|samples| - 1])
  }

  lemma SyncKeepsOk(c: Clock, sample: SyncPoint)
    requires ClockOk(c)
    ensures ClockOk(Sync(c, sample)) && (Calibrated(c) ==> Calibrated(Sync(c, sample)))
  {
  }

  lemma {:induction false} SamplesAreCounted(first: SyncPoint, samples: seq<SyncPoint>)
    ensures SyncAll(first, samples).sampleCount == (1 + |samples|) % TWO_64
    decreases |samples|
  {
    if samples != [] { SamplesAreCounted(first, samples[..|samples| - 1]); }
  }

  /** After any samples: one anchor, a scale that is all there or not at all, and calibration that is never lost. */
  lemma {:induction false} EveryClockIsOk(first: SyncPoint, samples: seq<SyncPoint>, k: nat)
    requires k <= |samples|
    ensures ClockOk(SyncAll(first, samples))
    ensures SyncAll(first, samples).anchor == if samples == [] then first else samples[|samples| - 1]
    ensures Calibrated(SyncAll(first, samples[..k])) ==> Calibrated(SyncAll(first, samples))
    decreases |samples|
  {
    if samples != [] {
      var before := samples[..|samples| - 1];
      if k < |samples| {
        assert before[..k] == samples[..k];
        EveryClockIsOk(first, before, k);
      } else {
        assert samples[..k] == samples;
        EveryClockIsOk(first, before, 0);
      }
      SyncKeepsOk(SyncAll(first, before), samples[|samples| - 1]);
    }
  }

  // ------------------------------------------------------------------ what a conversion means

  /** Unclamped offset of a tick at signed distance `d`. */
  function Offset(c: Clock, d: int): int
    requires Calibrated(c)
  {
    TruncDiv(d * c.scaleNanoseconds, c.scaleTicks)
  }

  lemma ConvertedAt(c: Clock, d: int, fallback: i64)
    requires ClockOk(c) && Calibrated(c) && -TWO_63 <= d < TWO_63
    ensures ToNanoseconds(c, TickAt(c.anchor.tick, d), fallback) ==
            ClampToInt64(c.anchor.epochTime + ClampToInt64(Offset(c, d)))
  {
    TickDeltaIsSignedDistance(TickAt(c.anchor.tick, d), c.anchor.tick, d);
  }

  /**
   Calibrated conversion is monotone over the whole signed range of distances, and the intermediate
   product stays inside the signed 128-bit range.
   */
  lemma {:induction false} ConversionIsMonotone(c: Clock, d1: int, d2: int, fallback: i64)
    requires ClockOk(c) && Calibrated(c) && -TWO_63 <= d1 <= d2 < TWO_63
    ensures ToNanoseconds(c, TickAt(c.anchor.tick, d1), fallback) <=
            ToNanoseconds(c, TickAt(c.anchor.tick, d2), fallback)
    ensures -TWO_127 <= d1 * c.scaleNanoseconds <= d2 * c.scaleNanoseconds < TWO_127
  {
    MulMonotone(d1, d2, c.scaleNanoseconds);
    MulMonotone(-TWO_63, d1, c.scaleNanoseconds);
    MulMonotone(d2, TWO_63 - 1, c.scaleNanoseconds);
    TruncDivMonotone(d1 * c.scaleNanoseconds, d2 * c.scaleNanoseconds, c.scaleTicks);
    ConvertedAt(c, d1, fallback);
    ConvertedAt(c, d2, fallback);
  }

  /**
   After a sample that made a new scale, the new sample converts to its own time, and the one before it
   does too exactly when at most 2^63 ticks passed between them.
   */
  lemma {:induction false} BothSamplesConvert(c: Clock, sample: SyncPoint, fallback: i64)
    requires ClockOk(c) && Accepts(c, sample)
    requires -TWO_63 <= sample.epochTime - c.last.epochTime < TWO_63
    ensures ToNanoseconds(Sync(c, sample), sample.tick, fallback) == sample.epochTime
    ensures ToNanoseconds(Sync(c, sample), c.last.tick, fallback) == c.last.epochTime <==>
            WrapSub(sample.tick, c.last.tick) <= TWO_63
  {
    var s, elapsed, ns := Sync(c, sample), WrapSub(sample.tick, c.last.tick), sample.epochTime - c.last.epochTime;
    TruncDivExact(0, elapsed);
    assert ns * elapsed == elapsed * ns;
    if elapsed <= TWO_63 {
      assert TickDelta(c.last.tick, sample.tick) == -elapsed;
      TruncDivExact(-ns, elapsed);
      assert -elapsed * ns == -ns * elapsed;
    } else {
      var d := TWO_64 - elapsed;
      assert TickDelta(c.last.tick, sample.tick) == d;
      MulMonotone(0, d, ns);
      TruncDivMonotone(0, d * ns, elapsed);
      assert TruncDiv(d * ns, elapsed) >= 0;
    }
  }

  /** The sample before the last of all. */
  function Previous(first: SyncPoint, samples: seq<SyncPoint>): SyncPoint
    requires samples != []
  {
    if |samples| == 1 then first else samples[|samples| - 2]
  }

  /**
   After any samples: if the last two lie 1 to 2^63 ticks apart and the time between them grew by less than
   2^63, both convert to their own times. The sample count has wrapped to 0 only after 2^64 of them.
   */
  lemma {:induction false} LastTwoSamplesConvert(first: SyncPoint, samples: seq<SyncPoint>, apart: nat, fallback: i64)
    requires samples != [] && |samples| % TWO_64 != 0 && 1 <= apart <= TWO_63
    requires samples[|samples| - 1].tick == (Previous(first, samples).tick + apart) % TWO_64
    requires 0 < samples[|samples| - 1].epochTime - Previous(first, samples).epochTime < TWO_63
    ensures var previous, last := Previous(first, samples), samples[|samples| - 1];
            && ToNanoseconds(SyncAll(first, samples), last.tick, fallback) == last.epochTime
            && ToNanoseconds(SyncAll(first, samples), previous.tick, fallback) == previous.epochTime
  {
    var before, sample := samples[..|samples| - 1], samples[|samples| - 1];
    SamplesAreCounted(first, before);
    EveryClockIsOk(first, before, 0);
    var c := SyncAll(first, before);
    assert c.last == Previous(first, samples);
    assert WrapSub(sample.tick, c.last.tick) == apart;
    BothSamplesConvert(c, sample, fallback);
  }

  /** A sample with the tick or the time of the one before it, or an earlier time, leaves the scale as it was. */
  lemma {:induction false} StandstillKeepsScale(first: SyncPoint, samples: seq<SyncPoint>)
    requires samples != []
    requires var previous, last := Previous(first, samples), samples[|samples| - 1];
             last.tick == previous.tick || -TWO_63 <= last.epochTime - previous.epochTime <= 0
    ensures var c, before := SyncAll(first, samples), SyncAll(first, samples[..|samples| - 1]);
            c.scaleTicks == before.scaleTicks && c.scaleNanoseconds == before.scaleNanoseconds
  {
    EveryClockIsOk(first, samples[..|samples| - 1], 0);
  }

  /** Before any calibration a tick converts by the fallback offset alone. */
  lemma {:induction false} UncalibratedConverts(first: SyncPoint, tick: Tick, fallback: i64)
    ensures ToNanoseconds(SyncAll(first, []), tick, fallback) == SaturatingAdd(first.epochTime, fallback)
  {
  }

  /** A saturated sum is the representable number nearest to the true one. */
  lemma SaturatesToNearest(lhs: i64, rhs: i64, other: i64)
    ensures var r, exact := SaturatingAdd(lhs, rhs), lhs + rhs;
            (if r >= exact then r - exact else exact - r) <= (if other >= exact then other - exact else exact - other)
  {
  }

  /** The unclamped offset is less than one nanosecond from the exact rational value, towards the anchor. */
  lemma OffsetIsWithinOneNanosecond(c: Clock, d: int)
    requires ClockOk(c) && Calibrated(c)
    ensures -(c.scaleTicks as int) < Offset(c, d) * c.scaleTicks - d * c.scaleNanoseconds < c.scaleTicks
    ensures d >= 0 ==> Offset(c, d) * c.scaleTicks <= d * c.scaleNanoseconds
    ensures d <= 0 ==> Offset(c, d) * c.scaleTicks >= d * c.scaleNanoseconds
  {
    var a, t := d * c.scaleNanoseconds, c.scaleTicks;
    if d >= 0 {
      MulMonotone(0, d, c.scaleNanoseconds);
      assert a == a / t * t + a % t;
    } else {
      MulMonotone(d, -1, c.scaleNanoseconds);
      assert -a == -a / t * t + -a % t;
      MulDistributes(0, -a / t, t);
    }
  }

  /** Moving a tick by whole calibration intervals, away from the anchor, moves the offset by whole steps. */
  lemma {:induction false} OffsetIsPeriodic(c: Clock, d: int, k: nat)
    requires ClockOk(c) && Calibrated(c)
    ensures d >= 0 ==> Offset(c, d + k * c.scaleTicks) == Offset(c, d) + k * c.scaleNanoseconds
    ensures d <= 0 ==> Offset(c, d - k * c.scaleTicks) == Offset(c, d) - k * c.scaleNanoseconds
  {
    var ns, t := c.scaleNanoseconds, c.scaleTicks;
    PeriodAway(if d >= 0 then d else -d, k, ns, t);
    if d <= 0 {
      assert (d - k * t) * ns == -((-d + k * t) * ns);
      assert d * ns == -((-d) * ns);
    }
  }

  /** Nothing is clamped on the way from a signed distance to a time. */
  predicate Unclamped(c: Clock, d: int)
    requires Calibrated(c)
  {
    -TWO_63 <= d < TWO_63 && -TWO_63 <= Offset(c, d) < TWO_63 && -TWO_63 <= c.anchor.epochTime + Offset(c, d) < TWO_63
  }

  /** The converted time of a tick so many signed ticks from the anchor. */
  function TimeAt(c: Clock, d: int, fallback: i64): i64
    requires -TWO_63 <= d < TWO_63
  {
    ToNanoseconds(c, TickAt(c.anchor.tick, d), fallback)
  }

  lemma UnclampedTime(c: Clock, d: int, fallback: i64)
    requires ClockOk(c) && Calibrated(c) && Unclamped(c, d)
    ensures TimeAt(c, d, fallback) == c.anchor.epochTime + Offset(c, d)
  {
    ConvertedAt(c, d, fallback);
  }

  /** So the converted time itself moves by whole steps, as long as nothing is clamped. */
  lemma {:induction false} ConversionIsPeriodic(c: Clock, d: int, k: nat, fallback: i64)
    requires ClockOk(c) && Calibrated(c) && Unclamped(c, d)
    ensures d >= 0 && Unclamped(c, d + k * c.scaleTicks) ==>
            TimeAt(c, d + k * c.scaleTicks, fallback) == TimeAt(c, d, fallback) + k * c.scaleNanoseconds
    ensures d <= 0 && Unclamped(c, d - k * c.scaleTicks) ==>
            TimeAt(c, d - k * c.scaleTicks, fallback) == TimeAt(c, d, fallback) - k * c.scaleNanoseconds
  {
    OffsetIsPeriodic(c, d, k);
    UnclampedTime(c, d, fallback);
    if d >= 0 && Unclamped(c, d + k * c.scaleTicks) { UnclampedTime(c, d + k * c.scaleTicks, fallback); }
    if d <= 0 && Unclamped(c, d - k * c.scaleTicks) { UnclampedTime(c, d - k * c.scaleTicks, fallback); }
  }

  /** A counter that steps back by one tick passes for one that went almost all the way round. */
  lemma PreviousSampleLost(fallback: i64)
    ensures var c, sample := Fresh(SyncPoint(1, 0)), SyncPoint(0, 1000);
            Accepts(c, sample) && ToNanoseconds(Sync(c, sample), c.last.tick, fallback) == 1000 != c.last.epochTime
  {
    var c, sample := Fresh(SyncPoint(1, 0)), SyncPoint(0, 1000);
    assert WrapSub(sample.tick, c.last.tick) == TWO_64 - 1 && TickDelta(c.last.tick, sample.tick) == 1;
  }

  lemma {:induction false} PeriodAway(d: nat, k: nat, ns: nat, t: nat)
    requires t > 0
    ensures d * ns >= 0 && (d + k * t) * ns >= 0
    ensures (d + k * t) * ns / t == d * ns / t + k * ns
  {
    MulDistributes(d, k * t, ns);
    MulSwap(k, t, ns);
    ModAddMultiple(d * ns, t, k * ns);
  }
}
