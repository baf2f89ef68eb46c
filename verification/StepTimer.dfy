/**
 The fixed/variable step timer: one tick as a function of the previous state and the raw
 counter delta, and the class that computes it with a draining loop.
 */
module StepTimer {
  import opened Integers

  const TICKS_PER_SECOND: nat := 10_000_000
  const SNAP_RANGE: nat := TICKS_PER_SECOND / 4000
  const MAX_STEP: nat := TICKS_PER_SECOND / 10

  datatype TimerState = TimerState(
    elapsed: nat, total: nat, leftOver: nat,
    frames: nat, framesPerSecond: nat, framesThisSecond: nat, secondCounter: nat,
    isFixed: bool, target: nat)

  const INITIAL := TimerState(0, 0, 0, 0, 0, 0, 0, false, TICKS_PER_SECOND / 60)

  // A counter frequency is a positive signed 64-bit number.
  type Frequency = f: nat | 0 < f < TWO_63 witness 1

  // The counter delta after the clamp to a tenth of a second.
  function Clamped(F: Frequency, raw: nat): (c: nat)
    ensures raw <= F / 10 ==> c == raw
    ensures raw >= F / 10 ==> c == F / 10
  {
    Min(raw, F / 10)
  }

  // The clamped delta in ticks of 100 ns.  The multiplication is on 64 bits.
  function Converted(F: Frequency, raw: nat): nat {
    Quot(U64(Clamped(F, raw) * TICKS_PER_SECOND), F)
  }

  // The test that decides whether a delta is moved onto the target: an unsigned
  // subtraction, a cast to signed, and an absolute value.
  predicate Snaps(delta: nat, target: nat) {
    Abs(S64(U64(delta - target))) < SNAP_RANGE
  }

  // The delta that a tick feeds to the accumulator.
  function Effective(F: Frequency, s: TimerState, raw: nat): nat {
    var d := Converted(F, raw);
    if s.isFixed && Snaps(d, s.target) then s.target else d
  }

  // In fixed mode a zero target never lets the draining loop end.
  predicate CanTick(s: TimerState) {
    s.isFixed ==> 0 < s.target
  }

  // How many times one tick calls the update function.
  function Updates(F: Frequency, s: TimerState, raw: nat): nat
    requires CanTick(s)
  {
    if s.isFixed then Quot(U64(s.leftOver + Effective(F, s, raw)), s.target) else 1
  }

  // What one tick adds to the total before the 64-bit wrap.
  function Progress(F: Frequency, s: TimerState, raw: nat): nat
    requires CanTick(s)
  {
    if s.isFixed then Updates(F, s, raw) * s.target else Effective(F, s, raw)
  }

  function Advanced(F: Frequency, s: TimerState, raw: nat): TimerState
    requires CanTick(s)
  {
    var n := Updates(F, s, raw);
    s.(elapsed := if !s.isFixed then Effective(F, s, raw) else if n > 0 then s.target else s.elapsed,
       total := U64(s.total + Progress(F, s, raw)),
       leftOver := if s.isFixed then Rem(U64(s.leftOver + Effective(F, s, raw)), s.target) else 0,
       frames := U32(s.frames + n))
  }

  // The frame-rate bookkeeping at the end of a tick.
  function RateCounted(F: Frequency, s: TimerState, framesBefore: nat, raw: nat): TimerState {
    var seen := if s.frames != framesBefore then U32(s.framesThisSecond + 1) else s.framesThisSecond;
    var counter := U64(s.secondCounter + raw);
    if counter >= F
    then s.(framesPerSecond := seen, framesThisSecond := 0, secondCounter := Rem(counter, F))
    else s.(framesThisSecond := seen, secondCounter := counter)
  }

  function Ticked(F: Frequency, s: TimerState, raw: nat): TimerState
    requires CanTick(s)
  {
    RateCounted(F, Advanced(F, s, raw), s.frames, raw)
  }

  function Restarted(s: TimerState): TimerState {
    s.(leftOver := 0, framesPerSecond := 0, framesThisSecond := 0, secondCounter := 0)
  }

  // The operations of the timer.
  datatype Event =
    | Tick(raw: nat)
    | SetFixedTimeStep(on: bool)
    | SetTargetElapsedTicks(ticks: nat)
    | ResetElapsedTime

  function Apply(F: Frequency, s: TimerState, e: Event): TimerState
    requires e.Tick? ==> CanTick(s)
  {
    match e
    case Tick(raw) => Ticked(F, s, raw)
    case SetFixedTimeStep(on) => s.(isFixed := on)
    case SetTargetElapsedTicks(ticks) => s.(target := ticks)
    case ResetElapsedTime => Restarted(s)
  }

  // ---------------------------------------------------------------- one tick

  // The cast-and-abs expression measures the distance around the 64-bit circle.
  lemma SnapDistance(delta: nat, target: nat)
    requires delta < TWO_64 && target < TWO_64
    ensures Snaps(delta, target) <==> Abs(delta - target) < 2500 || Abs(delta - target) > TWO_64 - 2500
    ensures Abs(delta - target) < TWO_63 ==> Abs(S64(U64(delta - target))) == Abs(delta - target)
  {
    var x := delta - target;
    if x < 0 {
      assert U64(x) == x + TWO_64;
    }
  }

  // The delta that a tick feeds in: the clamped and scaled counter delta, or the target when
  // that is less than 2500 ticks away on the circle.
  lemma FedDelta(F: Frequency, s: TimerState, raw: nat)
    requires s.target < TWO_64
    ensures var scaled := (if raw <= F / 10 then raw else F / 10) * 10_000_000;
            var delta := Quot(if scaled < TWO_64 then scaled else scaled % TWO_64, F);
            var near := Abs(delta - s.target) < 2500 || Abs(delta - s.target) > TWO_64 - 2500;
            Effective(F, s, raw) == if s.isFixed && near then s.target else delta
  {
    ConvertedBound(F, raw);
    SnapDistance(Converted(F, raw), s.target);
    hide Snaps, Quot;
  }

  lemma ClampBounds(F: Frequency)
    ensures 10 * (F / 10) <= F
  {
  }

  lemma ScaledBound(c: nat, F: nat)
    requires 10 * c <= F
    ensures c * TICKS_PER_SECOND <= MAX_STEP * F
  {
    assert c * 10_000_000 <= 1_000_000 * F;
  }

  // A converted delta is at most a tenth of a second, also when the scaling wraps.
  lemma ConvertedBound(F: Frequency, raw: nat)
    ensures Converted(F, raw) <= MAX_STEP
  {
    var c := Clamped(F, raw);
    ClampBounds(F);
    ScaledBound(c, F);
    hide U64, Quot, Clamped;
    QuotientAtMost(U64(c * TICKS_PER_SECOND), F, MAX_STEP);
  }

  // The scaling multiplication fits exactly for the frequencies below about 1.8e13.
  predicate ScaleFits(F: Frequency) {
    (F / 10) * TICKS_PER_SECOND < TWO_64
  }

  lemma ScaleFitsExactly(F: Frequency)
    ensures ScaleFits(F) <==> forall raw: nat :: Clamped(F, raw) * TICKS_PER_SECOND < TWO_64
  {
    if !ScaleFits(F) {
      assert Clamped(F, F / 10) == F / 10;
      assert Clamped(F, F / 10) * TICKS_PER_SECOND >= TWO_64;
    }
  }

  // What the 64-bit multiplication cuts off.
  function Overflow(F: Frequency, raw: nat): nat {
    Clamped(F, raw) * TICKS_PER_SECOND - U64(Clamped(F, raw) * TICKS_PER_SECOND)
  }

  // Apart from that the conversion loses less than one tick.
  lemma ConversionLoss(F: Frequency, raw: nat)
    ensures 0 <= TICKS_PER_SECOND * Clamped(F, raw) - Overflow(F, raw) - F * Converted(F, raw) <= F - 1
    ensures ScaleFits(F) ==> Overflow(F, raw) == 0
  {
    var scaled := Clamped(F, raw) * TICKS_PER_SECOND;
    QuotientBounds(U64(scaled), F);
  }

  // Every conversion loses less than one tick exactly for these frequencies.
  lemma ConversionLossExactly(F: Frequency)
    ensures ScaleFits(F) <==>
            forall raw: nat :: TICKS_PER_SECOND * Clamped(F, raw) - F * Converted(F, raw) <= F - 1
  {
    if ScaleFits(F) {
      forall raw: nat ensures TICKS_PER_SECOND * Clamped(F, raw) - F * Converted(F, raw) <= F - 1 {
        ConversionLoss(F, raw);
      }
    } else {
      var raw := F / 10;
      assert Clamped(F, raw) == raw;
      ConversionLoss(F, raw);
      CutOff(raw * TICKS_PER_SECOND);
      assert Overflow(F, raw) >= TWO_64;
      assert TICKS_PER_SECOND * Clamped(F, raw) - F * Converted(F, raw) > F - 1;
    }
  }

  lemma CutOff(x: nat)
    requires x >= TWO_64
    ensures x - U64(x) >= TWO_64
  {
  }

  // At 20 THz a tenth of a second wraps and converts to 77662 ticks.
  lemma ScaleOverflows()
    ensures !ScaleFits(20_000_000_000_000)
    ensures Converted(20_000_000_000_000, 2_000_000_000_000) == 77_662
  {
    var F: Frequency := 20_000_000_000_000;
    assert Clamped(F, 2_000_000_000_000) == 2_000_000_000_000;
    assert U64(20_000_000_000_000_000_000) == 20_000_000_000_000_000_000 - TWO_64;
    QuotientUnique(20_000_000_000_000_000_000 - TWO_64, F, 77_662, 15_926_290_448_384);
  }

  // One tick from a drained accumulator runs a bounded burst of updates.
  lemma BurstBound(F: Frequency, s: TimerState, raw: nat)
    requires s.isFixed && s.leftOver < s.target < TWO_64
    ensures Updates(F, s, raw) <= Max(1, Quot(s.target - 1 + MAX_STEP, s.target)) <= MAX_STEP
  {
    hide U64, Quot, Converted, Snaps;
    var T, e := s.target, Effective(F, s, raw);
    ConvertedBound(F, raw);
    var L := U64(s.leftOver + e);
    assert L <= s.leftOver + e;
    if e <= MAX_STEP {
      QuotientMonotone(L, T - 1 + MAX_STEP, T);
    } else {
      assert L < 1 * T + T;
      QuotientAtMost(L, T, 1);
    }
    assert T - 1 + MAX_STEP < 1_000_000 * T + T;
    QuotientAtMost(T - 1 + MAX_STEP, T, MAX_STEP);
  }

  // The frame counter of 32 bits moves exactly when the updates are no multiple of 2^32.
  lemma FrameSeen(F: Frequency, s: TimerState, raw: nat)
    requires CanTick(s) && s.frames < TWO_32
    ensures Advanced(F, s, raw).frames != s.frames <==> Updates(F, s, raw) % TWO_32 != 0
  {
    hide Updates, Progress, Effective;
  }

  // A fixed-mode tick runs updates that the frame counter does not show exactly when the
  // accumulator holds at least one target, and less than one beyond a multiple of 2^32.
  lemma MissedExactly(F: Frequency, s: TimerState, raw: nat)
    requires s.isFixed && 0 < s.target && s.frames < TWO_32
    ensures var pile := U64(s.leftOver + Effective(F, s, raw));
            Updates(F, s, raw) != 0 && Advanced(F, s, raw).frames == s.frames
            <==> s.target <= pile && Rem(pile, TWO_32 * s.target) < s.target
  {
    hide Effective, U64, Quot, Rem;
    var T, pile := s.target, U64(s.leftOver + Effective(F, s, raw));
    FrameSeen(F, s, raw);
    MultipleOfFrames(pile, T);
    QuotientBounds(pile, T);
    if pile < T {
      QuotientUnique(pile, T, 0, pile);
    } else {
      QuotientUnique(T, T, 1, 0);
      QuotientMonotone(T, pile, T);
    }
  }

  lemma MultipleOfFrames(pile: nat, T: nat)
    requires 0 < T
    ensures Quot(pile, T) % TWO_32 == 0 <==> Rem(pile, TWO_32 * T) < T
  {
    hide Quot, Rem;
    QuotientBounds(pile, T);
    var n, r := Quot(pile, T), Rem(pile, T);
    var m, q := n / TWO_32, n % TWO_32;
    assert n * T == m * (TWO_32 * T) + q * T by { SplitMultiple(m, q, T); }
    assert q * T + r < TWO_32 * T by { BelowFrames(q, T, r); }
    QuotientUnique(pile, TWO_32 * T, m, q * T + r);
    if q != 0 {
      MultipleBounds(q, T);
    }
  }

  lemma SplitMultiple(m: nat, q: nat, T: nat)
    ensures (m * TWO_32 + q) * T == m * (TWO_32 * T) + q * T
  {
  }

  lemma BelowFrames(q: nat, T: nat, r: nat)
    requires q < TWO_32 && r < T
    ensures q * T + r < TWO_32 * T
  {
    MultipleBounds(TWO_32 - q, T);
    assert (TWO_32 - q) * T == TWO_32 * T - q * T;
  }

  // A tick that ran 2^32 updates is missed by the frame-rate counter: a large leftover
  // meets a target that was lowered to one tick.
  lemma FrameMissed()
    ensures var s := INITIAL.(isFixed := true, target := 1, leftOver := TWO_32 - 1);
            Updates(TICKS_PER_SECOND, s, 1) == TWO_32 &&
            Ticked(TICKS_PER_SECOND, s, 1).framesThisSecond == s.framesThisSecond
  {
    var s := INITIAL.(isFixed := true, target := 1, leftOver := TWO_32 - 1);
    assert Clamped(TICKS_PER_SECOND, 1) == 1;
    assert Converted(TICKS_PER_SECOND, 1) == 1;
    SnapDistance(1, 1);
    assert Effective(TICKS_PER_SECOND, s, 1) == 1;
    FrameSeen(TICKS_PER_SECOND, s, 1);
  }

  // Time is conserved by one fixed-mode tick exactly when the accumulator does not wrap.
  lemma TickConserves(F: Frequency, s: TimerState, raw: nat)
    requires s.isFixed && 0 < s.target
    ensures Progress(F, s, raw) + Ticked(F, s, raw).leftOver == s.leftOver + Effective(F, s, raw)
            <==> s.leftOver + Effective(F, s, raw) < TWO_64
  {
    QuotientBounds(U64(s.leftOver + Effective(F, s, raw)), s.target);
  }

  // It can wrap when the target is near 2^64: a delta of 0 lies next to the largest
  // target on the 64-bit circle, snaps to it, and a tick of leftover time is lost.
  lemma WrapLosesTime()
    ensures var s := INITIAL.(isFixed := true, target := TWO_64 - 1, leftOver := 10);
            Progress(1000, s, 0) + Ticked(1000, s, 0).leftOver < s.leftOver
  {
    var s := INITIAL.(isFixed := true, target := TWO_64 - 1, leftOver := 10);
    assert Clamped(1000, 0) == 0 && Converted(1000, 0) == 0;
    SnapDistance(0, TWO_64 - 1);
    assert U64(s.leftOver + Effective(1000, s, 0)) == 9;
    QuotientUnique(9, TWO_64 - 1, 0, 9);
  }

  // The accumulator after k rounds of the draining loop, which ends when it is below the target.
  function AfterRounds(left: nat, target: nat, k: nat): nat {
    if k == 0 then left
    else if left >= target then AfterRounds(left - target, target, k - 1)
    else left
  }

  // The loop ends exactly for a positive target.
  lemma DrainEnds(left: nat, target: nat)
    ensures 0 < target <==> exists k: nat :: AfterRounds(left, target, k) < target
  {
    if 0 < target {
      var k := RoundsNeeded(left, target);
    }
  }

  lemma {:induction false} RoundsNeeded(left: nat, target: nat) returns (k: nat)
    requires 0 < target
    ensures AfterRounds(left, target, k) < target
    decreases left
  {
    if left < target {
      k := 0;
    } else {
      k := RoundsNeeded(left - target, target);
      k := k + 1;
    }
  }

  // The second counter plays no part in the update modes.
  lemma CounterIndependent(F: Frequency, s: TimerState, counter: nat, raw: nat)
    requires CanTick(s)
    ensures var t := s.(secondCounter := counter);
            Advanced(F, t, raw) == Advanced(F, s, raw).(secondCounter := counter) &&
            Updates(F, t, raw) == Updates(F, s, raw)
    ensures Advanced(F, s, raw).secondCounter == s.secondCounter
  {
    hide Quot, Rem, Converted, U64, U32;
  }

  // ---------------------------------------------------------------- the class

  class Timer {
    const frequency: Frequency
    const maxDelta: nat
    var lastTime: nat

    var elapsedTicks: nat
    var totalTicks: nat
    var leftOverTicks: nat
    var frameCount: nat
    var framesPerSecond: nat
    var framesThisSecond: nat
    var secondCounter: nat
    var isFixedTimeStep: bool
    var targetElapsedTicks: nat

    function View(): TimerState
      reads this
    {
      TimerState(elapsedTicks, totalTicks, leftOverTicks, frameCount, framesPerSecond, framesThisSecond,
                 secondCounter, isFixedTimeStep, targetElapsedTicks)
    }

    // Every field is in the range of its machine type.
    ghost predicate Valid()
      reads this
    {
      && maxDelta == frequency / 10
      && lastTime < TWO_63
      && totalTicks < TWO_64 && leftOverTicks < TWO_64
      && frameCount < TWO_32 && framesThisSecond < TWO_32
      && secondCounter < frequency
    }

    // The frequency and the first reading are what the two clock calls returned.
    constructor (frequency: Frequency, now: nat)
      requires now < TWO_63
      ensures Valid() && View() == INITIAL && lastTime == now && this.frequency == frequency
      ensures View() == TimerState(0, 0, 0, 0, 0, 0, 0, false, 166_666)
    {
      this.frequency := frequency;
      lastTime := now;
      maxDelta := frequency / 10;
      elapsedTicks, totalTicks, leftOverTicks := 0, 0, 0;
      frameCount, framesPerSecond, framesThisSecond, secondCounter := 0, 0, 0, 0;
      isFixedTimeStep := false;
      targetElapsedTicks := TICKS_PER_SECOND / 60;
    }

    method SetFixedTimeStep(on: bool)
      requires Valid()
      modifies this`isFixedTimeStep
      ensures Valid() && View() == Apply(frequency, old(View()), Event.SetFixedTimeStep(on))
      ensures View() == old(View()).(isFixed := on)
    {
      isFixedTimeStep := on;
    }

    method SetTargetElapsedTicks(ticks: nat)
      requires Valid()
      modifies this`targetElapsedTicks
      ensures Valid() && View() == Apply(frequency, old(View()), Event.SetTargetElapsedTicks(ticks))
      ensures View() == old(View()).(target := ticks)
    {
      targetElapsedTicks := ticks;
    }

    // A failed clock call throws before anything is assigned.
    method ResetElapsedTime(clockWorks: bool, now: nat) returns (done: bool)
      requires Valid() && now < TWO_63
      modifies this
      ensures Valid() && done == clockWorks
      ensures done ==> View() == Apply(frequency, old(View()), Event.ResetElapsedTime) && lastTime == now
      ensures done ==> leftOverTicks == framesPerSecond == framesThisSecond == secondCounter == 0
      ensures elapsedTicks == old(elapsedTicks) && totalTicks == old(totalTicks) && frameCount == old(frameCount)
      ensures isFixedTimeStep == old(isFixedTimeStep) && targetElapsedTicks == old(targetElapsedTicks)
      ensures !done ==> View() == old(View()) && lastTime == old(lastTime)
    {
      if !clockWorks {
        return false;
      }
      lastTime := now;
      leftOverTicks := 0;
      framesPerSecond := 0;
      framesThisSecond := 0;
      secondCounter := 0;
      return true;
    }

    method Tick(clockWorks: bool, now: nat) returns (done: bool, updates: nat)
      requires Valid() && now < TWO_63 && CanTick(View())
      modifies this
      ensures Valid() && done == clockWorks
      ensures done ==>
                && View() == Apply(frequency, old(View()), Event.Tick(U64(now - old(lastTime))))
                && updates == Updates(frequency, old(View()), U64(now - old(lastTime)))
                && lastTime == now
      ensures !done ==> View() == old(View()) && lastTime == old(lastTime) && updates == 0
    {
      hide Quot, Rem, Updates, Progress, Effective, Advanced;
      if !clockWorks {
        return false, 0;
      }
      ghost var before := View();
      var timeDelta: nat := U64(now - lastTime);
      ghost var raw := timeDelta;
      lastTime := now;
      secondCounter := U64(secondCounter + timeDelta);

      if timeDelta > maxDelta {
        timeDelta := maxDelta;
      }
      timeDelta := U64(timeDelta * TICKS_PER_SECOND);
      timeDelta := Quot(timeDelta, frequency);

      var lastFrameCount := frameCount;
      CounterIndependent(frequency, before, secondCounter, raw);
      updates := Advance(raw, timeDelta);

      if frameCount != lastFrameCount {
        framesThisSecond := U32(framesThisSecond + 1);
      }
      if secondCounter >= frequency {
        framesPerSecond := framesThisSecond;
        framesThisSecond := 0;
        secondCounter := Rem(secondCounter, frequency);
      }
      return true, updates;
    }

    // The two update modes of `Tick`.
    method Advance(ghost raw: nat, delta: nat) returns (updates: nat)
      requires CanTick(View()) && totalTicks < TWO_64 && frameCount < TWO_32
      requires delta == Converted(frequency, raw)
      modifies this`elapsedTicks, this`totalTicks, this`leftOverTicks, this`frameCount
      ensures View() == Advanced(frequency, old(View()), raw)
      ensures updates == Updates(frequency, old(View()), raw)
      ensures totalTicks < TWO_64 && leftOverTicks < TWO_64 && frameCount < TWO_32
    {
      hide Quot, Rem, Converted, U32, U64, S64, Abs;
      var timeDelta := delta;
      if isFixedTimeStep {
        if Abs(S64(U64(timeDelta - targetElapsedTicks))) < TICKS_PER_SECOND / 4000 {
          timeDelta := targetElapsedTicks;
        }
        leftOverTicks := U64(leftOverTicks + timeDelta);
        QuotientBounds(leftOverTicks, targetElapsedTicks);
        updates := Drain();
      } else {
        elapsedTicks := timeDelta;
        totalTicks := U64(totalTicks + timeDelta);
        leftOverTicks := 0;
        frameCount := U32(frameCount + 1);
        updates := 1;
      }
    }

    // The draining loop of `Tick`: it takes whole targets off the accumulator, which is
    // a division by repeated subtraction.
    method Drain() returns (updates: nat)
      requires 0 < targetElapsedTicks
      requires totalTicks < TWO_64 && frameCount < TWO_32
      modifies this`elapsedTicks, this`totalTicks, this`leftOverTicks, this`frameCount
      ensures updates == Quot(old(leftOverTicks), targetElapsedTicks)
      ensures leftOverTicks <= old(leftOverTicks)
      ensures leftOverTicks == Rem(old(leftOverTicks), targetElapsedTicks)
      ensures totalTicks == U64(old(totalTicks) + updates * targetElapsedTicks)
      ensures frameCount == U32(old(frameCount) + updates)
      ensures elapsedTicks == if updates > 0 then targetElapsedTicks else old(elapsedTicks)
    {
      hide U64, U32, Quot, Rem;
      updates := 0;
      ghost var pile := leftOverTicks;
      while leftOverTicks >= targetElapsedTicks
        invariant leftOverTicks == pile - updates * targetElapsedTicks
        invariant totalTicks == U64(old(totalTicks) + updates * targetElapsedTicks)
        invariant frameCount == U32(old(frameCount) + updates)
        invariant elapsedTicks == if updates > 0 then targetElapsedTicks else old(elapsedTicks)
        decreases leftOverTicks
      {
        OneMore(updates, targetElapsedTicks);
        U64Adds(old(totalTicks) + updates * targetElapsedTicks, targetElapsedTicks);
        U32Adds(old(frameCount) + updates, 1);
        elapsedTicks := targetElapsedTicks;
        totalTicks := U64(totalTicks + targetElapsedTicks);
        leftOverTicks := leftOverTicks - targetElapsedTicks;
        frameCount := U32(frameCount + 1);
        updates := updates + 1;
      }
      QuotientUnique(pile, targetElapsedTicks, updates, leftOverTicks);
    }
  }
}
