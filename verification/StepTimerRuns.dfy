/**
 What whole runs of the step timer keep: conservation of time, drift bounds, independence
 of how time is split among ticks, steadiness near the target, and the frame-rate counter.
 */
module StepTimerRuns {
  import opened Integers
  import opened StepTimer

  // A target is a positive 64-bit number of ticks; a clock that goes back gives a clock
  // delta of 2^63 or more.
  predicate Admissible(e: Event) {
    match e
    case Tick(raw) => raw < TWO_64
    case SetTargetElapsedTicks(ticks) => 0 < ticks < TWO_64
    case _ => true
  }

  predicate AllAdmissible(es: seq<Event>) {
    forall e <- es :: Admissible(e)
  }

  predicate Sound(F: Frequency, s: TimerState) {
    && 0 < s.target < TWO_64 && s.leftOver < TWO_64
    && s.total < TWO_64 && s.frames < TWO_32 && s.framesThisSecond < TWO_32
    && s.secondCounter < F
  }

  // A sound state can tick, and stays sound.
  lemma TickKeepsSound(F: Frequency, s: TimerState, raw: nat)
    requires Sound(F, s)
    ensures Effective(F, s, raw) < TWO_64
    ensures Sound(F, Ticked(F, s, raw))
    ensures Ticked(F, s, raw).isFixed == s.isFixed && Ticked(F, s, raw).target == s.target
    ensures s.isFixed ==> Ticked(F, s, raw).leftOver < s.target
  {
    hide Converted, Updates, Progress, Snaps, U64, U32;
    ConvertedBound(F, raw);
  }

  // The accumulator wraps in this tick.
  predicate Wraps(F: Frequency, s: TimerState, raw: nat) {
    s.isFixed && s.leftOver + Effective(F, s, raw) >= TWO_64
  }

  function Run(F: Frequency, s: TimerState, es: seq<Event>): (t: TimerState)
    requires Sound(F, s) && AllAdmissible(es)
    ensures Sound(F, t)
    decreases |es|
  {
    if es == [] then s else
      StepKeepsSound(F, s, es[0]);
      Run(F, Apply(F, s, es[0]), es[1..])
  }

  lemma StepKeepsSound(F: Frequency, s: TimerState, e: Event)
    requires Sound(F, s) && Admissible(e)
    ensures Sound(F, Apply(F, s, e))
  {
    hide Ticked;
    if e.Tick? {
      TickKeepsSound(F, s, e.raw);
    }
  }

  // ---------------------------------------------------------------- accounts

  // What a run feeds in, adds to the total and throws away, and what the frame-rate
  // counter sees; all in exact integers.
  datatype Account = Account(
    fed: nat,          // effective deltas
    added: nat,        // total ticks before the 64-bit wrap
    dropped: nat,      // leftovers discarded by resets and variable-mode ticks
    wraps: nat,        // ticks in which the 64-bit accumulator wrapped
    updates: nat,      // calls of the update function
    busy: nat,         // ticks that ran at least one update
    seen: nat,         // ticks that moved the 32-bit frame counter
    missed: nat,       // ticks that ran updates and did not move it
    published: nat,    // sum of the published frames-per-second values
    publications: nat)
  {
    function Plus(a: Account): Account {
      Account(fed + a.fed, added + a.added, dropped + a.dropped, wraps + a.wraps,
              updates + a.updates, busy + a.busy, seen + a.seen, missed + a.missed,
              published + a.published, publications + a.publications)
    }
  }

  const NOTHING := Account(0, 0, 0, 0, 0, 0, 0, 0, 0, 0)

  predicate Publishes(F: Frequency, s: TimerState, raw: nat) {
    U64(s.secondCounter + raw) >= F
  }

  function Entry(F: Frequency, s: TimerState, e: Event): Account
    requires CanTick(s)
  {
    match e
    case Tick(raw) =>
      var t := Ticked(F, s, raw);
      var publishes := Publishes(F, s, raw);
      Account(Effective(F, s, raw), Progress(F, s, raw), if s.isFixed then 0 else s.leftOver,
              if Wraps(F, s, raw) then 1 else 0, Updates(F, s, raw),
              if Updates(F, s, raw) != 0 then 1 else 0,
              if t.frames != s.frames then 1 else 0,
              if Updates(F, s, raw) != 0 && t.frames == s.frames then 1 else 0,
              if publishes then t.framesPerSecond else 0,
              if publishes then 1 else 0)
    case ResetElapsedTime => NOTHING.(dropped := s.leftOver)
    case _ => NOTHING
  }

  function Books(F: Frequency, s: TimerState, es: seq<Event>): Account
    requires Sound(F, s) && AllAdmissible(es)
    decreases |es|
  {
    if es == [] then NOTHING else
      StepKeepsSound(F, s, es[0]);
      Entry(F, s, es[0]).Plus(Books(F, Apply(F, s, es[0]), es[1..]))
  }

  // ---------------------------------------------------------------- conservation

  lemma StepBalances(F: Frequency, s: TimerState, e: Event)
    requires Sound(F, s) && Admissible(e)
    ensures var a, t := Entry(F, s, e), Apply(F, s, e);
            && a.added + t.leftOver + a.dropped + TWO_64 * a.wraps == s.leftOver + a.fed
            && t.total == U64(s.total + a.added)
  {
    hide Converted, Snaps, U32, Updates, Progress, U64;
    if e.Tick? {
      TickBalances(F, s, e.raw);
    }
  }

  lemma TickBalances(F: Frequency, s: TimerState, raw: nat)
    requires Sound(F, s)
    ensures var t := Ticked(F, s, raw);
            && t.total == U64(s.total + Progress(F, s, raw))
            && (if s.isFixed
                then Progress(F, s, raw) + t.leftOver + (if Wraps(F, s, raw) then TWO_64 else 0)
                     == s.leftOver + Effective(F, s, raw)
                else Progress(F, s, raw) == Effective(F, s, raw) && t.leftOver == 0)
  {
    TickKeepsSound(F, s, raw);
    hide Effective, U32, U64, Quot, Rem;
    if s.isFixed {
      var pile := s.leftOver + Effective(F, s, raw);
      WrapOnce(pile);
      QuotientBounds(U64(pile), s.target);
    }
  }

  lemma WrapOnce(pile: nat)
    requires pile < 2 * TWO_64
    ensures U64(pile) == if pile >= TWO_64 then pile - TWO_64 else pile
  {
  }

  // Over any interleaving of ticks, mode switches, target changes and resets, what was fed
  // in is in the total, in the leftover, or was discarded; only a wrap of the accumulator
  // loses time, 2^64 ticks each.
  lemma {:induction false} Conservation(F: Frequency, s: TimerState, es: seq<Event>)
    requires Sound(F, s) && AllAdmissible(es)
    ensures var a, t := Books(F, s, es), Run(F, s, es);
            && a.added + t.leftOver + a.dropped + TWO_64 * a.wraps == s.leftOver + a.fed
            && (a.added + t.leftOver + a.dropped == s.leftOver + a.fed <==> a.wraps == 0)
            && t.total == U64(s.total + a.added)
    decreases |es|
  {
    hide Apply, Entry, U64;
    if es != [] {
      StepKeepsSound(F, s, es[0]);
      StepBalances(F, s, es[0]);
      var s', a := Apply(F, s, es[0]), Entry(F, s, es[0]);
      Conservation(F, s', es[1..]);
      U64Adds(s.total + a.added, Books(F, s', es[1..]).added);
    }
  }

  // A tick feeds in at most a tenth of a second and the snap, unless the target is so near
  // 2^64 that small deltas snap to it around the circle.
  const MAX_FED: nat := MAX_STEP + SNAP_RANGE

  predicate Roomy(s: TimerState) {
    s.target <= TWO_64 - MAX_FED && s.leftOver < TWO_64 - MAX_FED
  }

  lemma FedIsSmall(F: Frequency, s: TimerState, raw: nat)
    requires 0 < s.target <= TWO_64 - MAX_FED
    ensures Effective(F, s, raw) < MAX_FED
  {
    hide Converted;
    ConvertedBound(F, raw);
    SnapDistance(Converted(F, raw), s.target);
  }

  lemma TickKeepsRoomy(F: Frequency, s: TimerState, raw: nat)
    requires Sound(F, s) && Roomy(s)
    ensures !Wraps(F, s, raw) && Roomy(Ticked(F, s, raw))
  {
    hide Effective, U64, U32;
    FedIsSmall(F, s, raw);
  }

  // No tick wraps as long as the targets stay a tenth of a second below 2^64 ticks.
  lemma {:induction false} NeverWraps(F: Frequency, s: TimerState, es: seq<Event>)
    requires Sound(F, s) && AllAdmissible(es) && Roomy(s)
    requires forall e <- es :: e.SetTargetElapsedTicks? ==> e.ticks <= TWO_64 - MAX_FED
    ensures Books(F, s, es).wraps == 0
    decreases |es|
  {
    hide Ticked, Updates, Progress, Clamped, Effective;
    if es != [] {
      StepKeepsSound(F, s, es[0]);
      if es[0].Tick? {
        TickKeepsRoomy(F, s, es[0].raw);
      }
      NeverWraps(F, Apply(F, s, es[0]), es[1..]);
    }
  }

  // ---------------------------------------------------------------- drift

  predicate TicksOnly(es: seq<Event>) {
    AllAdmissible(es) && forall e <- es :: e.Tick?
  }

  // Errors of two stretches of time add up, each within its share of the bound.
  lemma AddDrift(F: nat, bound: nat, x: int, d: int, x': int, d': int, n: nat)
    requires Abs(x - F * d) <= bound
    requires Abs(x' - F * d') <= n * bound
    ensures Abs(x + x' - F * (d + d')) <= (n + 1) * bound
    ensures x >= F * d && x' >= F * d' ==> x + x' >= F * (d + d')
  {
    assert F * (d + d') == F * d + F * d';
    assert (n + 1) * bound == n * bound + bound;
  }

  // The time of the ticks in units of the counter, of which a tick counts no more than a
  // tenth of a second.
  function RealTime(F: Frequency, es: seq<Event>): nat {
    if es == [] then 0
    else (if !es[0].Tick? then 0 else if es[0].raw <= F / 10 then es[0].raw else F / 10) + RealTime(F, es[1..])
  }

  // What the 64-bit scaling of that time to ticks cuts off.
  function CutOffTime(F: Frequency, es: seq<Event>): nat {
    if es == [] then 0 else
      var counted := if !es[0].Tick? then 0 else if es[0].raw <= F / 10 then es[0].raw else F / 10;
      counted * 10_000_000 - U64(counted * 10_000_000) + CutOffTime(F, es[1..])
  }

  lemma {:induction false} NothingCutOff(F: Frequency, es: seq<Event>)
    requires ScaleFits(F)
    ensures CutOffTime(F, es) == 0
  {
    if es != [] {
      if es[0].Tick? {
        ConversionLoss(F, es[0].raw);
      }
      NothingCutOff(F, es[1..]);
    }
  }

  function Scaled(F: Frequency, es: seq<Event>): int {
    10_000_000 * RealTime(F, es) - CutOffTime(F, es)
  }

  lemma ScaledTick(F: Frequency, es: seq<Event>)
    requires es != [] && es[0].Tick?
    ensures Scaled(F, es) == TICKS_PER_SECOND * Clamped(F, es[0].raw) - Overflow(F, es[0].raw) + Scaled(F, es[1..])
  {
    hide U64;
  }

  // In variable mode every tick rounds down by less than one tick of 100 ns.
  lemma {:induction false} VariableDrift(F: Frequency, s: TimerState, es: seq<Event>)
    requires Sound(F, s) && TicksOnly(es) && !s.isFixed
    ensures var a := Books(F, s, es);
            && 0 <= 10_000_000 * RealTime(F, es) - CutOffTime(F, es) - F * a.added <= |es| * (F - 1)
            && (ScaleFits(F) ==> CutOffTime(F, es) == 0)
            && Run(F, s, es).total == U64(s.total + a.added)
    decreases |es|
  {
    hide Ticked, Converted, Clamped, U64, Updates, Overflow, RealTime, CutOffTime;
    Conservation(F, s, es);
    if ScaleFits(F) {
      NothingCutOff(F, es);
    }
    assert Scaled(F, es) == 10_000_000 * RealTime(F, es) - CutOffTime(F, es);
    if es == [] {
      NoTime(F);
    } else {
      var raw := es[0].raw;
      TickKeepsSound(F, s, raw);
      ConversionLoss(F, raw);
      ScaledTick(F, es);
      VariableDrift(F, Ticked(F, s, raw), es[1..]);
      var b := Books(F, Ticked(F, s, raw), es[1..]);
      AddDrift(F, F - 1, TICKS_PER_SECOND * Clamped(F, raw) - Overflow(F, raw), Effective(F, s, raw),
               Scaled(F, es[1..]), b.added, |es[1..]|);
    }
  }

  lemma NoTime(F: Frequency)
    ensures RealTime(F, []) == CutOffTime(F, []) == 0
  {
  }

  // The distance of one effective delta from the clock delta behind it.
  function SnapError(F: Frequency, s: TimerState, raw: nat): nat {
    Abs(TICKS_PER_SECOND * Clamped(F, raw) - Overflow(F, raw) - F * Effective(F, s, raw))
  }

  // The snap moves a delta by less than a quarter of a millisecond.
  lemma SnapLoss(F: Frequency, s: TimerState, raw: nat)
    requires Sound(F, s) && s.target <= TWO_64 - SNAP_RANGE
    ensures SnapError(F, s, raw) <= SNAP_RANGE * F - 1
  {
    hide Converted, Clamped, U64, Overflow;
    ConversionLoss(F, raw);
    ConvertedBound(F, raw);
    var d, e := Converted(F, raw), Effective(F, s, raw);
    SnapDistance(d, s.target);
    SnapArithmetic(F, TICKS_PER_SECOND * Clamped(F, raw) - Overflow(F, raw), d, e);
  }

  // Nearer to 2^64 than the snap range, a target is met by a delta of 0 around the circle.
  lemma SnapLossExactly(F: Frequency, s: TimerState)
    requires Sound(F, s) && s.isFixed
    ensures s.target <= TWO_64 - SNAP_RANGE <==> forall raw: nat :: SnapError(F, s, raw) <= SNAP_RANGE * F - 1
  {
    if s.target <= TWO_64 - SNAP_RANGE {
      forall raw: nat ensures SnapError(F, s, raw) <= SNAP_RANGE * F - 1 {
        SnapLoss(F, s, raw);
      }
    } else {
      assert Clamped(F, 0) == 0 && Overflow(F, 0) == 0 && Converted(F, 0) == 0;
      SnapDistance(0, s.target);
      assert SnapError(F, s, 0) == F * s.target;
      Monotone(F, SNAP_RANGE, s.target);
    }
  }

  lemma SnapArithmetic(F: nat, x: int, d: nat, e: nat)
    requires 0 <= x - F * d <= F - 1 && Abs(d - e) < SNAP_RANGE
    ensures Abs(x - F * e) <= SNAP_RANGE * F - 1
  {
    var k := d - e;
    assert F * d == F * e + F * k by { Distribute(F, e, k); }
    assert F * k <= F * (SNAP_RANGE - 1) by { Monotone(F, k, SNAP_RANGE - 1); }
    assert F * (1 - SNAP_RANGE) <= F * k by { Monotone(F, 1 - SNAP_RANGE, k); }
  }

  lemma Distribute(a: int, b: int, c: int)
    ensures a * (b + c) == a * b + a * c
  {
  }

  lemma Monotone(a: nat, b: int, c: int)
    requires b <= c
    ensures a * b <= a * c
  {
  }

  // In fixed mode total plus leftover stays within the snap range per tick of real time,
  // apart from the 2^64 ticks lost by every wrap of the accumulator.
  lemma {:induction false} FixedDrift(F: Frequency, s: TimerState, es: seq<Event>)
    requires Sound(F, s) && TicksOnly(es) && s.isFixed && s.target <= TWO_64 - SNAP_RANGE
    ensures var a, t := Books(F, s, es), Run(F, s, es);
            Abs(10_000_000 * RealTime(F, es) - CutOffTime(F, es)
                - F * (a.added + t.leftOver - s.leftOver + TWO_64 * a.wraps))
            <= |es| * (SNAP_RANGE * F - 1)
    decreases |es|
  {
    hide Ticked, Effective, Clamped, U64, Updates, Progress, Overflow, RealTime, CutOffTime;
    assert Scaled(F, es) == 10_000_000 * RealTime(F, es) - CutOffTime(F, es);
    if es == [] {
      NoTime(F);
    } else {
      var raw := es[0].raw;
      var s' := Ticked(F, s, raw);
      TickKeepsSound(F, s, raw);
      TickBalances(F, s, raw);
      SnapLoss(F, s, raw);
      ScaledTick(F, es);
      FixedDrift(F, s', es[1..]);
      var e, b, t := Effective(F, s, raw), Books(F, s', es[1..]), Run(F, s', es[1..]);
      AddDrift(F, SNAP_RANGE * F - 1, TICKS_PER_SECOND * Clamped(F, raw) - Overflow(F, raw), e,
               Scaled(F, es[1..]), b.added + t.leftOver - s'.leftOver + TWO_64 * b.wraps, |es[1..]|);
    }
  }

  // ---------------------------------------------------------------- variable mode

  // What one tick is worth in variable mode.
  function Worth(F: Frequency, raw: nat): nat {
    Quot(U64((if raw <= F / 10 then raw else F / 10) * 10_000_000), F)
  }

  function WorthOf(F: Frequency, es: seq<Event>): nat {
    if es == [] then 0 else (if es[0].Tick? then Worth(F, es[0].raw) else 0) + WorthOf(F, es[1..])
  }

  // A run of variable-mode ticks updates once per tick, adds exactly what the ticks are
  // worth, keeps no leftover, and shows the last tick as the elapsed time.
  lemma {:induction false} VariableRun(F: Frequency, s: TimerState, es: seq<Event>)
    requires Sound(F, s) && TicksOnly(es) && !s.isFixed
    ensures var a, t := Books(F, s, es), Run(F, s, es);
            && a.updates == a.busy == |es| && a.added == WorthOf(F, es)
            && t.total == U64(s.total + WorthOf(F, es))
            && t.frames == U32(s.frames + |es|)
            && t.isFixed == s.isFixed && t.target == s.target
            && (if es == [] then t.leftOver == s.leftOver && t.elapsed == s.elapsed
                else t.leftOver == 0 && t.elapsed == Worth(F, es[|es| - 1].raw))
    decreases |es|
  {
    hide Entry, Apply, U32, U64, Worth;
    Conservation(F, s, es);
    if es != [] {
      var raw := es[0].raw;
      StepKeepsSound(F, s, es[0]);
      VariableTick(F, s, raw);
      VariableRun(F, Apply(F, s, es[0]), es[1..]);
      U32Adds(s.frames + 1, |es| - 1);
    }
  }

  lemma VariableTick(F: Frequency, s: TimerState, raw: nat)
    requires Sound(F, s) && !s.isFixed
    ensures var a, t := Entry(F, s, Tick(raw)), Apply(F, s, Tick(raw));
            && a.updates == a.busy == 1 && a.added == Worth(F, raw)
            && t.frames == U32(s.frames + 1) && t.leftOver == 0 && t.elapsed == Worth(F, raw)
            && t.isFixed == s.isFixed && t.target == s.target
  {
    hide Quot, Rem, U32, U64;
  }

  // ---------------------------------------------------------------- splitting time

  // A whole run of fixed-mode ticks does what one division of all its time would do, so
  // how the time was split among the ticks does not matter; only a wrap of the accumulator
  // takes time out of the division, 2^64 ticks each.
  lemma FixedRun(F: Frequency, s: TimerState, es: seq<Event>)
    requires Sound(F, s) && TicksOnly(es) && s.isFixed && (es == [] ==> s.leftOver < s.target)
    ensures var a, t := Books(F, s, es), Run(F, s, es);
            var time := s.leftOver + a.fed;
            && TWO_64 * a.wraps <= time
            && a.updates == Quot(time - TWO_64 * a.wraps, s.target)
            && a.added == a.updates * s.target
            && t.frames == U32(s.frames + a.updates)
            && t.total == U64(s.total + a.updates * s.target)
            && t.leftOver == Rem(time - TWO_64 * a.wraps, s.target)
            && t.elapsed == (if a.updates > 0 then s.target else s.elapsed)
            && (a.updates == Quot(time, s.target) && t.leftOver == Rem(time, s.target) <==> a.wraps == 0)
  {
    hide Quot, Rem, U32, U64, Run, Books;
    var a, t, T := Books(F, s, es), Run(F, s, es), s.target;
    Conservation(F, s, es);
    FixedCounts(F, s, es);
    QuotientUnique(s.leftOver + a.fed - TWO_64 * a.wraps, T, a.updates, t.leftOver);
    QuotientBounds(s.leftOver + a.fed, T);
  }

  // Every update of a run of fixed-mode ticks adds one target, and nothing is discarded.
  lemma {:induction false} FixedCounts(F: Frequency, s: TimerState, es: seq<Event>)
    requires Sound(F, s) && TicksOnly(es) && s.isFixed && (es == [] ==> s.leftOver < s.target)
    ensures var a, t := Books(F, s, es), Run(F, s, es);
            && a.added == a.updates * s.target && a.dropped == 0
            && t.leftOver < s.target
            && t.frames == U32(s.frames + a.updates)
            && t.elapsed == (if a.updates > 0 then s.target else s.elapsed)
    decreases |es|
  {
    hide Entry, Apply, U32;
    if es != [] {
      var s', a := Apply(F, s, es[0]), Entry(F, s, es[0]);
      StepKeepsSound(F, s, es[0]);
      FixedTick(F, s, es[0].raw);
      FixedCounts(F, s', es[1..]);
      var rest := Books(F, s', es[1..]);
      AddUpdates(a, rest, s.target);
      U32Adds(s.frames + a.updates, rest.updates);
    }
  }

  lemma AddUpdates(a: Account, b: Account, T: nat)
    requires a.added == a.updates * T && b.added == b.updates * T
    ensures a.Plus(b).added == a.Plus(b).updates * T
  {
    Distribute(T, a.updates, b.updates);
  }

  lemma FixedTick(F: Frequency, s: TimerState, raw: nat)
    requires Sound(F, s) && s.isFixed
    ensures var a, t := Entry(F, s, Tick(raw)), Ticked(F, s, raw);
            && Apply(F, s, Tick(raw)) == t
            && Sound(F, t) && t.isFixed && t.target == s.target && t.leftOver < s.target
            && a.updates == Updates(F, s, raw)
            && a.added == a.updates * s.target && a.dropped == 0
            && t.frames == U32(s.frames + a.updates)
            && t.elapsed == (if a.updates > 0 then s.target else s.elapsed)
  {
    hide Effective, Quot, Rem, U32, Updates;
    TickKeepsSound(F, s, raw);
  }

  // ---------------------------------------------------------------- near the target

  // A delta whose true distance to the target is below the snap range.
  predicate Near(F: Frequency, s: TimerState, raw: nat) {
    Abs(Converted(F, raw) - s.target) < SNAP_RANGE
  }

  // With vertical sync every tick runs one update and the leftover never moves, so no
  // frame is ever dropped or doubled.
  lemma {:induction false} Steady(F: Frequency, s: TimerState, es: seq<Event>, k: nat)
    requires Sound(F, s) && TicksOnly(es) && s.isFixed && s.leftOver < s.target
    requires forall e <- es :: Near(F, s, e.raw)
    requires k <= |es|
    ensures var t := Run(F, s, es[..k]);
            && t.leftOver == s.leftOver && t.isFixed && t.target == s.target
            && t.frames == U32(s.frames + k)
            && t.total == U64(s.total + k * s.target)
            && (k > 0 ==> t.elapsed == s.target)
            && (k < |es| ==> Updates(F, t, es[k].raw) == 1)
    decreases |es|
  {
    hide Ticked, Effective, Converted, U64, U32, Updates;
    if es != [] {
      var raw := es[0].raw;
      var s' := Ticked(F, s, raw);
      SteadyTick(F, s, raw);
      if k > 0 {
        assert es[..k][1..] == es[1..][..k - 1];
        forall e | e in es[1..] ensures Near(F, s', e.raw) {
          assert e in es && Near(F, s, e.raw);
        }
        Steady(F, s', es[1..], k - 1);
        OneTickMore(s.frames, s.total, k, s.target);
      }
    }
  }

  lemma OneTickMore(frames: nat, total: nat, k: nat, T: nat)
    requires k > 0
    ensures U32(U32(frames + 1) + (k - 1)) == U32(frames + k)
    ensures U64(U64(total + T) + (k - 1) * T) == U64(total + k * T)
  {
    hide U32, U64;
    U32Adds(frames + 1, k - 1);
    OneMore(k - 1, T);
    U64Adds(total + T, (k - 1) * T);
  }

  // One tick near the target, from a drained accumulator.
  lemma SteadyTick(F: Frequency, s: TimerState, raw: nat)
    requires Sound(F, s) && s.isFixed && s.leftOver < s.target && Near(F, s, raw)
    ensures var t := Ticked(F, s, raw);
            && Sound(F, t) && t.isFixed && t.target == s.target == t.elapsed && t.leftOver == s.leftOver
            && t.frames == U32(s.frames + 1) && t.total == U64(s.total + s.target)
    ensures Updates(F, s, raw) == 1
  {
    SnapsToTarget(F, s, raw);
    FixedTick(F, s, raw);
    hide Effective, Converted, U64, U32, Quot, Rem;
    QuotientUnique(s.leftOver + s.target, s.target, 1, s.leftOver);
  }

  lemma SnapsToTarget(F: Frequency, s: TimerState, raw: nat)
    requires Sound(F, s) && s.isFixed && s.leftOver < s.target && Near(F, s, raw)
    ensures Effective(F, s, raw) == s.target && !Wraps(F, s, raw)
  {
    hide Converted;
    ConvertedBound(F, raw);
    SnapDistance(Converted(F, raw), s.target);
  }

  // ---------------------------------------------------------------- frames per second

  // The clock never goes back.
  predicate Forward(es: seq<Event>) {
    forall e <- es :: e.Tick? ==> e.raw < TWO_63
  }

  // The published rates and the current count together are the ticks that moved the frame
  // counter; while the clock goes forward, the second counter is the real time modulo one
  // second.
  lemma {:induction false} FrameRate(F: Frequency, s: TimerState, es: seq<Event>)
    requires Sound(F, s) && AllAdmissible(es) && forall e <- es :: !e.ResetElapsedTime?
    ensures var a, t := Books(F, s, es), Run(F, s, es);
            && U32(a.published + t.framesThisSecond) == U32(s.framesThisSecond + a.seen)
            && (s.framesThisSecond + |es| < TWO_32 ==>
                  a.published + t.framesThisSecond == s.framesThisSecond + a.seen)
            && (a.publications == 0 ==> a.published == 0 && t.framesPerSecond == s.framesPerSecond)
    decreases |es|
  {
    hide Apply, Entry, U32;
    if es != [] {
      var s', a := Apply(F, s, es[0]), Entry(F, s, es[0]);
      StepKeepsSound(F, s, es[0]);
      StepRate(F, s, es[0]);
      FrameRate(F, s', es[1..]);
      var b, t := Books(F, s', es[1..]), Run(F, s, es);
      U32Chain(a.published, b.published + t.framesThisSecond, s'.framesThisSecond, b.seen,
               s.framesThisSecond + a.seen);
    }
  }

  lemma U32Chain(p: nat, q: nat, c: nat, n: nat, m: nat)
    requires U32(q) == U32(c + n) && U32(p + c) == U32(m)
    ensures U32(p + q) == U32(m + n)
  {
    U32Adds(q, p);
    U32Adds(c + n, p);
    U32Adds(p + c, n);
    U32Adds(m, n);
  }

  lemma StepRate(F: Frequency, s: TimerState, e: Event)
    requires Sound(F, s) && Admissible(e) && !e.ResetElapsedTime?
    ensures var a, t := Entry(F, s, e), Apply(F, s, e);
            && U32(a.published + t.framesThisSecond) == U32(s.framesThisSecond + a.seen)
            && (s.framesThisSecond + 1 < TWO_32 ==>
                  a.published + t.framesThisSecond == s.framesThisSecond + a.seen
                  && t.framesThisSecond <= s.framesThisSecond + 1)
            && (a.publications == 0 ==> a.published == 0 && t.framesPerSecond == s.framesPerSecond)
  {
    hide Updates, Progress, Effective, Advanced, Clamped, U64, Rem;
    if e.Tick? {
      AdvancedKeepsRate(F, s, e.raw);
    }
  }

  lemma AdvancedKeepsRate(F: Frequency, s: TimerState, raw: nat)
    requires CanTick(s)
    ensures var t := Advanced(F, s, raw);
            && t.secondCounter == s.secondCounter && t.framesThisSecond == s.framesThisSecond
            && t.framesPerSecond == s.framesPerSecond
  {
    hide Updates, Progress, Effective;
  }

  function RawTime(es: seq<Event>): nat {
    if es == [] then 0 else (if es[0].Tick? then es[0].raw else 0) + RawTime(es[1..])
  }

  // While the clock goes forward, the second counter is the real time modulo one second,
  // and a rate is published at most once for every second of it.
  lemma {:induction false} SecondCounter(F: Frequency, s: TimerState, es: seq<Event>)
    requires Sound(F, s) && AllAdmissible(es) && Forward(es) && forall e <- es :: !e.ResetElapsedTime?
    ensures var a, t := Books(F, s, es), Run(F, s, es);
            && t.secondCounter == Rem(s.secondCounter + RawTime(es), F)
            && a.publications <= Quot(s.secondCounter + RawTime(es), F)
    decreases |es|
  {
    hide Apply, Entry, Quot, Rem;
    if es == [] {
      QuotientUnique(s.secondCounter, F, 0, s.secondCounter);
    } else {
      var s', a := Apply(F, s, es[0]), Entry(F, s, es[0]);
      StepKeepsSound(F, s, es[0]);
      StepSecond(F, s, es[0]);
      SecondCounter(F, s', es[1..]);
      var b := Books(F, s', es[1..]);
      var raw, rest := if es[0].Tick? then es[0].raw else 0, RawTime(es[1..]);
      QuotientCarries(s.secondCounter + raw, rest, F);
      assert s.secondCounter + raw + rest == s.secondCounter + (raw + rest);
    }
  }

  lemma StepSecond(F: Frequency, s: TimerState, e: Event)
    requires Sound(F, s) && Admissible(e) && !e.ResetElapsedTime? && (e.Tick? ==> e.raw < TWO_63)
    ensures var a, t := Entry(F, s, e), Apply(F, s, e);
            var raw := if e.Tick? then e.raw else 0;
            && t.secondCounter == Rem(s.secondCounter + raw, F)
            && a.publications <= Quot(s.secondCounter + raw, F)
  {
    hide Updates, Progress, Effective, Advanced, Clamped;
    if e.Tick? {
      var c := s.secondCounter + e.raw;
      AdvancedKeepsRate(F, s, e.raw);
      QuotientBounds(c, F);
      if c < F {
        QuotientUnique(c, F, 0, c);
      } else {
        QuotientMonotone(F, c, F);
        QuotientUnique(F, F, 1, 0);
      }
    } else {
      QuotientUnique(s.secondCounter, F, 0, s.secondCounter);
    }
  }

  // Within a second nothing is published.  The tick that completes it publishes the ticks
  // that moved the frame counter since the last publication, itself included, and the count
  // starts again at 0; any other tick only counts.
  lemma RateOfOneSecond(F: Frequency, s: TimerState, es: seq<Event>, raw: nat)
    requires Sound(F, s) && AllAdmissible(es) && Forward(es) && raw < TWO_63
    requires forall e <- es :: !e.ResetElapsedTime?
    requires s.framesThisSecond + |es| + 1 < TWO_32 && s.secondCounter + RawTime(es) < F
    ensures var t := Run(F, s, es);
            var u := Ticked(F, t, raw);
            var count := s.framesThisSecond + Books(F, s, es).seen + if u.frames != t.frames then 1 else 0;
            && t.framesPerSecond == s.framesPerSecond
            && (if s.secondCounter + RawTime(es) + raw >= F
                then u.framesPerSecond == count && u.framesThisSecond == 0
                else u.framesPerSecond == s.framesPerSecond && u.framesThisSecond == count)
  {
    WithinSecond(F, s, es);
    hide *;
    TickRate(F, Run(F, s, es), raw);
  }

  lemma WithinSecond(F: Frequency, s: TimerState, es: seq<Event>)
    requires Sound(F, s) && AllAdmissible(es) && Forward(es)
    requires forall e <- es :: !e.ResetElapsedTime?
    requires s.framesThisSecond + |es| + 1 < TWO_32 && s.secondCounter + RawTime(es) < F
    ensures var t := Run(F, s, es);
            && t.framesPerSecond == s.framesPerSecond && t.secondCounter == s.secondCounter + RawTime(es)
            && t.framesThisSecond == s.framesThisSecond + Books(F, s, es).seen
            && t.framesThisSecond + 1 < TWO_32
  {
    var time := s.secondCounter + RawTime(es);
    FrameRate(F, s, es);
    SeenAtMost(F, s, es);
    SecondCounter(F, s, es);
    QuotientUnique(time, F, 0, time);
    hide Run, Books, Ticked, Rem, Quot, U32, RawTime;
  }

  lemma {:induction false} SeenAtMost(F: Frequency, s: TimerState, es: seq<Event>)
    requires Sound(F, s) && AllAdmissible(es)
    ensures Books(F, s, es).seen <= |es|
    decreases |es|
  {
    hide Ticked, Updates, Progress, Effective;
    if es != [] {
      StepKeepsSound(F, s, es[0]);
      SeenAtMost(F, Apply(F, s, es[0]), es[1..]);
    }
  }

  lemma TickRate(F: Frequency, t: TimerState, raw: nat)
    requires Sound(F, t) && raw < TWO_63 && t.framesThisSecond + 1 < TWO_32
    ensures var u := Ticked(F, t, raw);
            var count := t.framesThisSecond + if u.frames != t.frames then 1 else 0;
            if t.secondCounter + raw >= F then u.framesPerSecond == count && u.framesThisSecond == 0
            else u.framesPerSecond == t.framesPerSecond && u.framesThisSecond == count
  {
    AdvancedKeepsRate(F, t, raw);
    hide Updates, Progress, Effective, Advanced, Rem;
  }

  // In every run a tick that ran an update either moves the frame counter or is missed.
  lemma {:induction false} SeenIsBusy(F: Frequency, s: TimerState, es: seq<Event>)
    requires Sound(F, s) && AllAdmissible(es)
    ensures var a := Books(F, s, es);
            a.busy == a.seen + a.missed && (a.seen == a.busy <==> a.missed == 0)
    decreases |es|
  {
    hide Ticked, Updates, Progress, Effective;
    if es != [] {
      StepKeepsSound(F, s, es[0]);
      if es[0].Tick? {
        MovesOnUpdates(F, s, es[0].raw);
      }
      SeenIsBusy(F, Apply(F, s, es[0]), es[1..]);
    }
  }

  lemma MovesOnUpdates(F: Frequency, s: TimerState, raw: nat)
    requires Sound(F, s)
    ensures Ticked(F, s, raw).frames != s.frames <==> Updates(F, s, raw) % TWO_32 != 0
  {
    hide Updates, Effective, Progress, U64;
    FrameSeen(F, s, raw);
  }

  // Targets and a leftover that no tick can turn into 2^32 updates.
  predicate Calm(s: TimerState) {
    s.target <= TWO_32 - MAX_FED && s.leftOver < TWO_32 - MAX_FED
  }

  // No tick is missed while the targets stay below about 429 seconds; they may change at
  // any time, also under a pending leftover.
  lemma {:induction false} NeverMisses(F: Frequency, s: TimerState, es: seq<Event>)
    requires Sound(F, s) && AllAdmissible(es) && Calm(s)
    requires forall e <- es :: e.SetTargetElapsedTicks? ==> e.ticks <= TWO_32 - MAX_FED
    ensures Books(F, s, es).missed == 0
    decreases |es|
  {
    hide Ticked, Updates, Progress, Effective;
    if es != [] {
      StepKeepsSound(F, s, es[0]);
      if es[0].Tick? {
        CalmTick(F, s, es[0].raw);
      }
      NeverMisses(F, Apply(F, s, es[0]), es[1..]);
    }
  }

  lemma CalmTick(F: Frequency, s: TimerState, raw: nat)
    requires Sound(F, s) && Calm(s)
    ensures Updates(F, s, raw) < TWO_32
    ensures Ticked(F, s, raw).frames != s.frames <==> Updates(F, s, raw) != 0
    ensures Calm(Ticked(F, s, raw))
  {
    hide Effective, Converted, U32, Quot, Rem;
    MovesOnUpdates(F, s, raw);
    TickKeepsSound(F, s, raw);
    if s.isFixed {
      FedIsSmall(F, s, raw);
      QuotientAtMostItself(s.leftOver + Effective(F, s, raw), s.target);
    }
  }

  lemma QuotientAtMostItself(a: nat, b: nat)
    requires 0 < b
    ensures Quot(a, b) <= a
  {
    Monotone(a, 1, b);
    assert a * b + b > a;
    QuotientAtMost(a, b, a);
  }

  // Neither is one missed for a target of any size that does not change.
  lemma {:induction false} NeverMissesOneTarget(F: Frequency, s: TimerState, es: seq<Event>)
    requires Sound(F, s) && AllAdmissible(es) && s.leftOver < s.target
    requires forall e <- es :: e.SetTargetElapsedTicks? ==> e.ticks == s.target
    ensures Books(F, s, es).missed == 0
    decreases |es|
  {
    hide Ticked, Updates, Progress, Effective;
    if es != [] {
      StepKeepsSound(F, s, es[0]);
      if es[0].Tick? {
        TickSeen(F, s, es[0].raw);
      }
      NeverMissesOneTarget(F, Apply(F, s, es[0]), es[1..]);
    }
  }

  lemma TickSeen(F: Frequency, s: TimerState, raw: nat)
    requires Sound(F, s) && s.leftOver < s.target
    ensures Ticked(F, s, raw).frames != s.frames <==> Updates(F, s, raw) != 0
    ensures Ticked(F, s, raw).leftOver < Ticked(F, s, raw).target == s.target
  {
    hide Effective, Converted;
    FrameSeen(F, s, raw);
    if s.isFixed {
      BurstBound(F, s, raw);
    }
  }

  // Since a reset, the published frame rates and the current count add up to the number
  // of ticks that ran at least one update, less the missed ones.
  lemma RateCountsBusyTicks(F: Frequency, s: TimerState, es: seq<Event>)
    requires Sound(F, s) && AllAdmissible(es) && |es| < TWO_32
    requires forall e <- es :: !e.ResetElapsedTime?
    ensures var s' := Restarted(s);
            var a, t := Books(F, s', es), Run(F, s', es);
            && a.published + t.framesThisSecond + a.missed == a.busy
            && (a.published + t.framesThisSecond == a.busy <==> a.missed == 0)
            && (Forward(es) ==> t.secondCounter == Rem(RawTime(es), F) && a.publications <= Quot(RawTime(es), F))
            && (a.publications == 0 ==> t.framesPerSecond == 0)
  {
    var s' := Restarted(s);
    FrameRate(F, s', es);
    SeenIsBusy(F, s', es);
    if Forward(es) {
      SecondCounter(F, s', es);
    }
  }

  // So the frame rate counts every busy tick when every target stays below 429 seconds.
  lemma RateIsExact(F: Frequency, s: TimerState, es: seq<Event>)
    requires Sound(F, s) && AllAdmissible(es) && |es| < TWO_32
    requires forall e <- es :: !e.ResetElapsedTime?
    requires s.target <= TWO_32 - MAX_FED
    requires forall e <- es :: e.SetTargetElapsedTicks? ==> e.ticks <= TWO_32 - MAX_FED
    ensures var s' := Restarted(s);
            Books(F, s', es).published + Run(F, s', es).framesThisSecond == Books(F, s', es).busy
  {
    RateCountsBusyTicks(F, s, es);
    NeverMisses(F, Restarted(s), es);
  }
}
