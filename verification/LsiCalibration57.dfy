/** The oscillator calibration loop of hal/ch57x/ch57x_hal_clk.c, which its flash and RAM variants share.  The counter that
    is read back is an arbitrary sensor: `sensor(m, trim)` is reading number `m`, taken with `trim` in the register.  The
    slope is kept in tenths, as an exact rational. */
module LsiCalibration57 {
  import opened MachineInts

  const MAX_MEASUREMENTS: nat := 20

  /** Nominal count and slope (tenths of a trim step per count) for the clock in use. */
  datatype Profile = Profile(basev: u16, slope: int)

  /** The clock register's mode and divider fields select the profile.  The source divides by the divider field. */
  function ProfileFor(mode: int, divider: int, rtcFreq: int): Profile
    requires 0 <= mode < 4 && 0 <= divider < 0x20 && 0 < rtcFreq
    requires mode < 2 ==> 0 < divider
  {
    var half := rtcFreq / 2;
    if mode == 2 then Profile(U16((5 * 32000000 + half) / rtcFreq), -16)
    else if mode == 1 then Profile(U16((5 * 480000000 / divider + half) / rtcFreq), -divider)
    else if mode == 0 then Profile(U16((5 * 32000000 / divider + half) / rtcFreq), -16 * divider)
    else Profile(5, 0)
  }

  datatype Exit = OnTarget | Bracketed | CloseEnough | GaveUp

  /** One measurement: the trim and the reading it gave. */
  datatype Sample = Sample(trim: u16, reading: u16)

  /** What a calibration leaves behind: the register, the saved tune value, the figure returned, by which return statement,
      and the measurements made. */
  datatype Outcome = Outcome(register: u16, saved: u16, error: u16, exit: Exit, samples: seq<Sample>)

  type Sensor = (nat, u16) -> u16

  // ----- the code ------------------------------------------------------------------------------------------------

  function Difference(p: Profile, reading: u16): i16 { I16(reading - p.basev) }

  /** `(diff_1 * diff_2) < 0`. */
  predicate OppositeSigns(a: i16, b: i16) { a * b < 0 }

  /** `~(diff - 1)` kept in a short. */
  function Negated(diff: i16): i16 { I16(0 - diff) }

  function Magnitude(diff: i16): i16 { if diff < 0 then Negated(diff) else diff }

  /** `|i - basev| * 10000 / basev`, in `int`. */
  function PerTenThousand(p: Profile, reading: u16): nat
    requires 0 < p.basev
  {
    Abs(reading - p.basev) * 10000 / p.basev
  }

  /** `diff * 10000 / basev` for a difference already made positive. */
  function Scaled(p: Profile, diff: i16): u16
    requires 0 < p.basev
  {
    U16(DivTrunc(diff * 10000, p.basev))
  }

  function Correction(p: Profile, diff: i16): i16 { I16(DivTrunc(diff * p.slope, 10)) }

  function NextTrim(p: Profile, loc: u16, diff: i16): u16 {
    var next := U16(loc - Correction(p, diff));
    if next != loc then next else if diff > 0 then U16(loc + 1) else U16(loc - 1)
  }

  /** The loop from measurement `k` on, with the previous trim, difference and correction. */
  function Calibrate(p: Profile, sensor: Sensor, k: nat, loc: u16, locT: u16, diff2: i16, diffc: i16, before: seq<Sample>)
    : Outcome
    requires 0 < p.basev && k < MAX_MEASUREMENTS
    decreases MAX_MEASUREMENTS - k
  {
    var i := sensor(k, loc);
    var samples := before + [Sample(loc, i)];
    var diff1 := Difference(p, i);
    if diff1 == 0 then
      Outcome(loc, loc, 0, OnTarget, samples)
    else if OppositeSigns(diff1, diff2) && -1 <= diffc <= 1 then
      var here := if diff2 < 0 then diff1 else Negated(diff1);
      var there := if diff2 < 0 then Negated(diff2) else diff2;
      if here > there then Outcome(locT, loc, Scaled(p, there), Bracketed, samples)
      else Outcome(loc, loc, Scaled(p, here), Bracketed, samples)
    else if PerTenThousand(p, i) < 11 then
      Outcome(loc, loc, U16(PerTenThousand(p, i)), CloseEnough, samples)
    else if k + 1 < MAX_MEASUREMENTS then
      Calibrate(p, sensor, k + 1, NextTrim(p, loc, diff1), loc, diff1, Correction(p, diff1), samples)
    else
      Outcome(loc, NextTrim(p, loc, diff1), U16(PerTenThousand(p, i)), GaveUp, samples)
  }

  class LsiOscillator {
    var register: u16  // R16_INT32K_TUNE
    var saved: u16     // int32k_tune_flash or int32k_tune_ram

    /** `hal_clk_lsi_calibrate_flash` and `hal_clk_lsi_calibrate_ram`. */
    method CalibrateLsi(p: Profile, sensor: Sensor) returns (error: u16, exit: Exit, samples: seq<Sample>)
      requires 0 < p.basev
      modifies this
      ensures Outcome(register, saved, error, exit, samples)
           == Calibrate(p, sensor, 0, if old(saved) != 0 then old(saved) else 2048, 0, 0, 0, [])
    {
      hide PerTenThousand; hide Scaled; hide Correction; hide NextTrim; hide OppositeSigns; hide Negated; hide Difference; hide U16;
      var loc: u16 := if saved != 0 then saved else 2048;
      var locT: u16, diff2: i16, diffc: i16 := 0, 0, 0;
      var k := 0;
      var i: u16, diff1: i16;
      samples := [];
      ghost var whole := Calibrate(p, sensor, 0, loc, locT, diff2, diffc, samples);
      while true
        invariant k < MAX_MEASUREMENTS
        invariant whole == Calibrate(p, sensor, k, loc, locT, diff2, diffc, samples)
        decreases MAX_MEASUREMENTS - k
      {
        register := loc;
        i := sensor(k, loc);
        samples := samples + [Sample(loc, i)];
        k := k + 1;
        diff1 := Difference(p, i);
        saved := loc;
        if diff1 == 0 {
          return 0, OnTarget, samples;
        } else if OppositeSigns(diff1, diff2) {
          if diffc == 1 || diffc == -1 || diffc == 0 {
            if diff2 < 0 {
              diff2 := Negated(diff2);
            } else {
              diff1 := Negated(diff1);
            }
            if diff1 > diff2 {
              register := locT;
              return Scaled(p, diff2), Bracketed, samples;
            } else {
              return Scaled(p, diff1), Bracketed, samples;
            }
          }
        }
        if PerTenThousand(p, i) < 11 {
          return U16(PerTenThousand(p, i)), CloseEnough, samples;
        }
        diff2 := diff1;
        locT := loc;
        diffc := Correction(p, diff1);
        loc := NextTrim(p, loc, diff1);
        if k >= MAX_MEASUREMENTS {
          break;
        }
      }
      saved := loc;
      return U16(PerTenThousand(p, i)), GaveUp, samples;
    }
  }

  // ----- the trims a calibration visits ---------------------------------------------------------------------------

  /** A calibration as its inputs determine it: the trims it visits and where it stops, without running the loop. */
  datatype Run = Run(p: Profile, sensor: Sensor, start: u16) {

    /** The trim of measurement `k`, if the loop gets that far. */
    function TrimAt(k: nat): u16 {
      if k == 0 then start
      else
        var loc := TrimAt(k - 1);
        NextTrim(p, loc, Difference(p, sensor(k - 1, loc)))
    }

    function ReadingAt(k: nat): u16 { sensor(k, TrimAt(k)) }

    function DiffAt(k: nat): i16 { Difference(p, ReadingAt(k)) }

    /** The nominal count lies between this reading and the previous one, at most one trim step apart. */
    predicate BracketsAt(k: nat) {
      k > 0 && OppositeSigns(DiffAt(k), DiffAt(k - 1)) && -1 <= Correction(p, DiffAt(k - 1)) <= 1
    }

    /** Whether the loop is left at measurement `k`, once it gets there. */
    predicate StopsAt(k: nat)
      requires 0 < p.basev
    {
      DiffAt(k) == 0 || BracketsAt(k) || PerTenThousand(p, ReadingAt(k)) < 11
    }

    ghost predicate Reaches(k: nat)
      requires 0 < p.basev
    {
      k < MAX_MEASUREMENTS && forall m: nat :: m < k ==> !StopsAt(m)
    }

    ghost predicate StopsFirstAt(k: nat)
      requires 0 < p.basev
    {
      Reaches(k) && StopsAt(k)
    }

    /** The measurements before measurement `k`. */
    function Trail(k: nat): seq<Sample> {
      if k == 0 then [] else Trail(k - 1) + [Sample(TrimAt(k - 1), ReadingAt(k - 1))]
    }

    /** The loop as it stands before measurement `k`. */
    function From(k: nat): Outcome
      requires 0 < p.basev && k < MAX_MEASUREMENTS
    {
      if k == 0 then Calibrate(p, sensor, 0, start, 0, 0, 0, [])
      else Calibrate(p, sensor, k, TrimAt(k), TrimAt(k - 1), DiffAt(k - 1), Correction(p, DiffAt(k - 1)), Trail(k))
    }

    /** Unless it stops there, the loop goes on to the next trim. */
    lemma GoesOn(k: nat)
      requires 0 < p.basev && k + 1 < MAX_MEASUREMENTS && !StopsAt(k)
      ensures From(k) == From(k + 1)
    {
      hide Difference; hide Correction; hide NextTrim; hide PerTenThousand; hide OppositeSigns; hide Negated; hide Scaled;
      OppositeSignsMean(DiffAt(k), 0);
      assert TrimAt(k + 1) == NextTrim(p, TrimAt(k), DiffAt(k));
      assert Trail(k + 1) == Trail(k) + [Sample(TrimAt(k), ReadingAt(k))];
      assert k == 0 ==> From(k) == Calibrate(p, sensor, k, TrimAt(k), 0, 0, 0, Trail(k));
    }

    /** The measurement the loop ends with, counted on from `k`: the first that stops it, or the last allowed. */
    function EndFrom(k: nat): nat
      requires 0 < p.basev && k < MAX_MEASUREMENTS
      decreases MAX_MEASUREMENTS - k
    {
      if StopsAt(k) || k + 1 == MAX_MEASUREMENTS then k else EndFrom(k + 1)
    }

    lemma {:induction false} EndIsReached(k: nat)
      requires 0 < p.basev && Reaches(k)
      ensures k <= EndFrom(k) && Reaches(EndFrom(k)) && From(k) == From(EndFrom(k))
      ensures StopsAt(EndFrom(k)) || EndFrom(k) + 1 == MAX_MEASUREMENTS
      decreases MAX_MEASUREMENTS - k
    {
      hide StopsAt; hide From;
      if !StopsAt(k) && k + 1 < MAX_MEASUREMENTS {
        GoesOn(k);
        EndIsReached(k + 1);
      }
    }

    lemma {:induction false} TrailMeasured(k: nat)
      ensures |Trail(k)| == k && Measured(sensor, Trail(k))
      ensures k > 0 ==> Trail(k)[k - 1] == Sample(TrimAt(k - 1), ReadingAt(k - 1)) && TrimAt(k - 1) != TrimAt(k)
    {
      hide Difference; hide NextTrim;
      if k > 0 {
        TrailMeasured(k - 1);
        NextTrimDiffers(p, TrimAt(k - 1), DiffAt(k - 1));
      }
    }

    /** The call left the previous, nearer trim in the register: the bracketing stop comes first and its reading is the
        farther of the two, by the code's 16-bit differences. */
    ghost predicate TurnsBackAt(k: nat)
      requires 0 < p.basev
    {
      StopsFirstAt(k) && BracketsAt(k) && Magnitude(DiffAt(k)) > Magnitude(DiffAt(k - 1))
    }
  }

  // ----- the steps of the trajectory, by inequalities --------------------------------------------------------------

  /** `q` is a tenth of `x`, truncated toward zero. */
  ghost predicate TruncatedTenth(x: int, q: int) {
    if x >= 0 then 10 * q <= x < 10 * q + 10 else 10 * q - 10 < x <= 10 * q
  }

  lemma TruncatedTenthIs(x: int, q: int)
    requires TruncatedTenth(x, q)
    ensures DivTrunc(x, 10) == q
  {
  }

  /** For every slope, trim and difference, with `q` the truncated product: the trim goes down by `q`, wrapping at 16 bits;
      when that would leave it where it is, one up if the count is too high and else one down. */
  lemma NextTrimIs(p: Profile, loc: u16, diff: i16, q: int)
    requires TruncatedTenth(diff * p.slope, q)
    ensures Correction(p, diff) == I16(q)
    ensures NextTrim(p, loc, diff) == U16(if q % 0x1_0000 != 0 then loc - q else if diff > 0 then loc + 1 else loc - 1)
    ensures q != 0 && 0 <= loc - q <= 0xFFFF ==> NextTrim(p, loc, diff) == loc - q
  {
    hide DivTrunc, TruncatedTenth;
    TruncatedTenthIs(diff * p.slope, q);
    NarrowedAnyway(loc, q);
  }

  lemma NarrowedAnyway(loc: u16, q: int)
    ensures U16(loc - I16(q)) == U16(loc - q)
    ensures U16(loc - q) == loc <==> q % 0x1_0000 == 0
    ensures q != 0 && 0 <= loc - q <= 0xFFFF ==> q % 0x1_0000 != 0
  {
    var m, d := q % 0x1_0000, q / 0x1_0000;
    assert q == d * 0x1_0000 + m;
  }

  /** The difference is kept in 16 signed bits, and the figure of a bracketing exit in 16 unsigned ones. */
  lemma WordsWrap(p: Profile, reading: u16, diff: i16, e: int)
    requires 0 < p.basev
    ensures Difference(p, reading) - (reading - p.basev) in {-0x1_0000, 0, 0x1_0000}
    ensures 0 <= diff && e * p.basev <= diff * 10000 < (e + 1) * p.basev ==> Scaled(p, diff) == U16(e)
  {
    hide U16;
    DivIsUnique(diff * 10000, p.basev, e);
  }

  /** A step of the trajectory from the reading alone, while the difference fits 16 bits. */
  lemma NextOfRun(run: Run, k: nat, q: int)
    requires Abs(run.ReadingAt(k) - run.p.basev) <= 0x7FFF
    requires TruncatedTenth((run.ReadingAt(k) - run.p.basev) * run.p.slope, q)
    ensures var d := run.ReadingAt(k) - run.p.basev;
            run.TrimAt(k + 1) == U16(if q % 0x1_0000 != 0 then run.TrimAt(k) - q
                                     else if d > 0 then run.TrimAt(k) + 1 else run.TrimAt(k) - 1)
  {
    hide NextTrim, TruncatedTenth, Correction;
    FittingDifference(run.p, run.ReadingAt(k));
    NextTrimIs(run.p, run.TrimAt(k), run.DiffAt(k), q);
  }

  ghost predicate Between(x: int, a: int, b: int) { a < x < b || b < x < a }

  /** The stopping conditions of a measurement from the readings alone, while the differences fit 16 bits: on target, less than
      11 parts in ten thousand off, or on the other side of nominal than the last one, which asked for at most one step. */
  lemma StopsIff(run: Run, k: nat, q: int)
    requires 0 < run.p.basev && Abs(run.ReadingAt(k) - run.p.basev) <= 0x7FFF
    requires k > 0 ==> Abs(run.ReadingAt(k - 1) - run.p.basev) <= 0x7FFF
    requires k > 0 ==> TruncatedTenth((run.ReadingAt(k - 1) - run.p.basev) * run.p.slope, q)
    ensures run.StopsAt(k)
       <==> || run.ReadingAt(k) == run.p.basev
            || 10000 * Abs(run.ReadingAt(k) - run.p.basev) < 11 * run.p.basev
            || (k > 0 && -1 <= I16(q) <= 1 && Between(run.p.basev, run.ReadingAt(k), run.ReadingAt(k - 1)))
  {
    hide Difference, Correction, NextTrim, PerTenThousand, OppositeSigns, TruncatedTenth;
    FittingDifference(run.p, run.ReadingAt(k));
    FarReading(run.p, run.ReadingAt(k));
    if k > 0 {
      FittingDifference(run.p, run.ReadingAt(k - 1));
      NextTrimIs(run.p, run.TrimAt(k - 1), run.DiffAt(k - 1), q);
      OppositeSignsMean(run.DiffAt(k), run.DiffAt(k - 1));
    }
  }

  /** The nominal count is that of five periods of the RTC, rounded to nearest, halves up, in the 16 bits it is kept in; the
      slope is that of the clock. */
  lemma ProfileIsNearest(mode: int, divider: int, rtcFreq: int, n: int)
    requires 0 <= mode < 3 && 0 < divider < 0x20 && 0 < rtcFreq
    requires var counts := if mode == 2 then 160_000_000 else if mode == 1 then 2_400_000_000 / divider else 160_000_000 / divider;
             (2 * n - 1) * rtcFreq <= 2 * counts < (2 * n + 1) * rtcFreq
    ensures ProfileFor(mode, divider, rtcFreq)
         == Profile(U16(n), if mode == 2 then -16 else if mode == 1 then -divider else -16 * divider)
    ensures ProfileFor(3, divider, rtcFreq) == Profile(5, 0)
  {
    hide U16;
    var counts := if mode == 2 then 160_000_000 else if mode == 1 then 2_400_000_000 / divider else 160_000_000 / divider;
    NearestQuotient(counts, rtcFreq, n);
  }

  lemma NearestQuotient(x: int, d: int, n: int)
    requires 0 < d && (2 * n - 1) * d <= 2 * x < (2 * n + 1) * d
    ensures (x + d / 2) / d == n
  {
    DivIsUnique(x + d / 2, d, n);
    assert (2 * n - 1) * d == 2 * (n * d) - d && (2 * n + 1) * d == 2 * (n * d) + d && (n + 1) * d == n * d + d;
  }

  // ----- what every calibration leaves behind ---------------------------------------------------------------------

  /** The reading is close enough to nominal that neither the 16-bit difference nor the 16-bit figure truncates. */
  predicate Small(p: Profile, reading: u16)
    requires 0 < p.basev
  {
    Abs(reading - p.basev) <= 0x7FFF && PerTenThousand(p, reading) <= 0xFFFF
  }

  /** The samples are the sensor's answers, and no trim is measured twice in a row. */
  ghost predicate Measured(sensor: Sensor, samples: seq<Sample>) {
    && (forall m :: 0 <= m < |samples| ==> samples[m].reading == sensor(m, samples[m].trim))
    && (forall m :: 0 < m < |samples| ==> samples[m - 1].trim != samples[m].trim)
  }

  /** The register holds the trim of `kept`, and the figure is that trim's error: ten thousand times its distance from nominal,
      divided by nominal and rounded down. */
  ghost predicate Reports(p: Profile, out: Outcome, kept: Sample) {
    && out.register == kept.trim
    && out.error * p.basev <= 10000 * Abs(kept.reading - p.basev) < (out.error + 1) * p.basev
  }

  /** The bracketing exit goes back to the previous trim when that one is strictly nearer. */
  predicate WentBack(p: Profile, out: Outcome) {
    var n := |out.samples|;
    out.exit == Bracketed && n >= 2 &&
    Abs(out.samples[n - 1].reading - p.basev) > Abs(out.samples[n - 2].reading - p.basev)
  }

  ghost predicate Sound(p: Profile, sensor: Sensor, out: Outcome)
    requires 0 < p.basev
  {
    var n := |out.samples|;
    && 1 <= n <= 20 && Measured(sensor, out.samples)
    && var last := out.samples[n - 1];
       match out.exit
       case OnTarget => Reports(p, out, last) && out.error == 0 && out.saved == last.trim && last.reading == p.basev
       case CloseEnough => Reports(p, out, last) && out.error < 11 && out.saved == last.trim
       case GaveUp => Reports(p, out, last) && n == 20 && out.saved != last.trim
       case Bracketed =>
         n >= 2 && var prev := out.samples[n - 2];
         && (prev.reading < p.basev < last.reading || last.reading < p.basev < prev.reading)
         && Reports(p, out, if WentBack(p, out) then prev else last)
         && out.error * p.basev <= 10000 * Abs(last.reading - p.basev)
         && out.error * p.basev <= 10000 * Abs(prev.reading - p.basev)
         && out.saved == last.trim
  }

  lemma SmallDifference(p: Profile, reading: u16)
    requires 0 < p.basev && Small(p, reading)
    ensures Difference(p, reading) == reading - p.basev
    ensures Negated(Difference(p, reading)) == p.basev - reading
    ensures reading >= p.basev ==> Scaled(p, Difference(p, reading)) == PerTenThousand(p, reading)
    ensures reading <= p.basev ==> Scaled(p, Negated(Difference(p, reading))) == PerTenThousand(p, reading)
  {
    hide Scaled; hide PerTenThousand;
    var d := Abs(reading - p.basev);
    ScaledFits(p, reading, d);
  }

  lemma ScaledFits(p: Profile, reading: u16, d: i16)
    requires 0 < p.basev && Small(p, reading) && d == Abs(reading - p.basev)
    ensures Scaled(p, d) == PerTenThousand(p, reading)
  {
  }

  lemma OppositeSignsMean(a: i16, b: i16)
    ensures OppositeSigns(a, b) <==> (a < 0 < b) || (b < 0 < a)
  {
    var x: int, y: int := a, b;
    if x > 0 && y > 0 { MulMonotone(0, x, y); }
    if x < 0 && y < 0 { MulMonotone(0, -x, -y); assert (-x) * (-y) == x * y; }
    if x < 0 < y { MulMonotone(x, -1, y); }
    if y < 0 < x { MulMonotone(y, -1, x); }
  }

  lemma NextTrimDiffers(p: Profile, loc: u16, diff: i16)
    ensures NextTrim(p, loc, diff) != loc
  {
    hide Correction;
  }

  lemma FigureIs(p: Profile, reading: u16)
    requires 0 < p.basev
    ensures var e := PerTenThousand(p, reading);
            e * p.basev <= 10000 * Abs(reading - p.basev) < (e + 1) * p.basev
  {
    DivBounds(Abs(reading - p.basev) * 10000, p.basev);
    Distribute(PerTenThousand(p, reading), 1, p.basev);
  }

  /** No reading the calibration takes truncates. */
  ghost predicate SmallReadings(run: Run)
    requires 0 < run.p.basev
  {
    forall k: nat :: run.Reaches(k) ==> Small(run.p, run.ReadingAt(k))
  }

  /** What the loop returns from a measurement it stops at, or from the last one. */
  lemma EndIsSound(run: Run, k: nat)
    requires 0 < run.p.basev && SmallReadings(run)
    requires run.Reaches(k) && (run.StopsAt(k) || k + 1 == MAX_MEASUREMENTS)
    ensures Sound(run.p, run.sensor, run.From(k))
  {
    hide Negated; hide Difference; hide Scaled; hide PerTenThousand; hide NextTrim; hide Correction; hide OppositeSigns;
    hide Small; hide Measured;
    var p, i, diff1 := run.p, run.ReadingAt(k), run.DiffAt(k);
    if run.BracketsAt(k) {
      BracketIsSound(run, k);
    } else {
      assert Small(p, run.ReadingAt(k));
      SmallDifference(p, i);
      run.TrailMeasured(k);
      run.TrailMeasured(k + 1);
      NextTrimDiffers(p, run.TrimAt(k), diff1);
      OppositeSignsMean(diff1, 0);
      FigureFits(p, i);
      FigureIs(p, i);
    }
  }

  lemma BracketIsSound(run: Run, k: nat)
    requires 0 < run.p.basev && SmallReadings(run) && run.Reaches(k) && run.BracketsAt(k)
    ensures Sound(run.p, run.sensor, run.From(k))
  {
    hide Negated; hide Difference; hide Scaled; hide PerTenThousand; hide NextTrim; hide Correction; hide OppositeSigns;
    hide Small; hide Measured;
    var p, i, prev := run.p, run.ReadingAt(k), run.ReadingAt(k - 1);
    run.TrailMeasured(k);
    run.TrailMeasured(k + 1);
    assert Small(p, run.ReadingAt(k));
    assert run.Reaches(k - 1);
    assert Small(p, run.ReadingAt(k - 1));
    SmallDifference(p, i);
    SmallDifference(p, prev);
    OppositeSignsMean(run.DiffAt(k), run.DiffAt(k - 1));
    FigureIs(p, i);
    FigureIs(p, prev);
  }

  lemma FigureFits(p: Profile, reading: u16)
    requires 0 < p.basev && Small(p, reading)
    ensures U16(PerTenThousand(p, reading)) == PerTenThousand(p, reading)
  {
  }

  /** For any sensor whose readings in this call are not so far off that a 16-bit word truncates, and from any start: at most
      20 measurements, no trim twice in a row, and on every exit the register holds a trim measured in this call and the
      figure is its error; on the bracketing exit, the smaller of the two. */
  lemma EveryCalibrationIsSound(p: Profile, sensor: Sensor, start: u16)
    requires 0 < p.basev && SmallReadings(Run(p, sensor, start))
    ensures Sound(p, sensor, Calibrate(p, sensor, 0, start, 0, 0, 0, []))
  {
    hide Calibrate; hide Sound;
    var run := Run(p, sensor, start);
    run.EndIsReached(0);
    EndIsSound(run, run.EndFrom(0));
  }

  /** For any sensor at all, the tune value saved for later differs from the calibrated register exactly when none of the 20
      trims stops the loop, or the first to do so brackets the nominal count with a reading farther off than the last. */
  lemma SavedIsNotRegisterIff(run: Run)
    requires 0 < run.p.basev
    ensures run.From(0).saved != run.From(0).register
       <==> (forall k: nat :: k < 20 ==> !run.StopsAt(k)) || exists k: nat :: run.TurnsBackAt(k)
    ensures (forall k: nat :: k < 20 ==> !run.StopsAt(k)) ==>
              run.From(0).saved == run.TrimAt(20) && run.From(0).register == run.TrimAt(19)
  {
    hide Calibrate, Difference, NextTrim, PerTenThousand, Correction, OppositeSigns, Magnitude;
    var k := run.EndFrom(0);
    run.EndIsReached(0);
    EndSavesRegisterIff(run, k);
    if j: nat :| run.TurnsBackAt(j) {
      assert run.StopsFirstAt(j);
      assert j == k;
    }
  }

  lemma EndSavesRegisterIff(run: Run, k: nat)
    requires 0 < run.p.basev && run.Reaches(k) && (run.StopsAt(k) || k + 1 == MAX_MEASUREMENTS)
    ensures run.From(k).saved == run.From(k).register <==> run.StopsAt(k) && !run.TurnsBackAt(k)
    ensures !run.StopsAt(k) ==> run.From(k).saved == run.TrimAt(k + 1) && run.From(k).register == run.TrimAt(k)
  {
    hide Negated; hide Difference; hide Scaled; hide PerTenThousand; hide NextTrim; hide Correction; hide OppositeSigns;
    hide U16;
    run.TrailMeasured(k);
    NextTrimDiffers(run.p, run.TrimAt(k), run.DiffAt(k));
    OppositeSignsMean(run.DiffAt(k), if k == 0 then 0 else run.DiffAt(k - 1));
  }

  /** It does happen at the default 60 MHz: an oscillator whose count reads 0 at every trim never stops the loop, and the trim
      then saved is not the one in the register. */
  lemma SavedTuneCanDiffer()
    ensures var run := Run(ProfileFor(1, 8, 32768), (m: nat, t: u16) => 0, 2048);
            && (forall k: nat :: k < MAX_MEASUREMENTS ==> !run.StopsAt(k))
            && run.From(0).saved != run.From(0).register
  {
    hide Calibrate, ProfileFor;
    var run := Run(ProfileFor(1, 8, 32768), (m: nat, t: u16) => 0, 2048);
    ProfileTable();
    forall k: nat ensures !run.StopsAt(k) {
      OppositeSignsMean(run.DiffAt(k), if k == 0 then 0 else run.DiffAt(k - 1));
    }
    SavedIsNotRegisterIff(run);
  }

  /** Going back to the previous trim does it too: in register mode 3, readings 6 then 3 against a nominal 5 put trim 2048 back
      but save 2049. */
  lemma SavedTuneCanDifferAfterTurningBack()
    ensures var out := Calibrate(Profile(5, 0), (m: nat, t: u16) => if m == 0 then 6 else 3, 0, 2048, 0, 0, 0, []);
            out.exit == Bracketed && out.register == 2048 && out.saved == 2049 && out.error == 2000
  {
    var p, sensor := Profile(5, 0), (m: nat, t: u16) => if m == 0 then 6 else 3;
    assert PerTenThousand(p, 6) == 2000 && Difference(p, 6) == 1 && Correction(p, 1) == 0 && NextTrim(p, 2048, 1) == 2049;
    assert Difference(p, 3) == -2 && Negated(-2) == 2 && Scaled(p, 1) == 2000;
    hide PerTenThousand; hide Difference; hide Correction; hide NextTrim; hide Negated; hide Scaled;
    assert Calibrate(p, sensor, 0, 2048, 0, 0, 0, [])
        == Calibrate(p, sensor, 1, 2049, 2048, 1, 0, [] + [Sample(2048, 6)]);
  }

  // ----- convergence ---------------------------------------------------------------------------------------------

  /** The count falls by one for every `n` tenths of a trim step, where `-n` is the slope, up to half a count: `ideal` is the
      trim that reads nominal. */
  ghost predicate LinearAt(p: Profile, reading: u16, trim: u16, ideal: real) {
    NearLine(-p.slope, -p.slope * (reading - p.basev), ideal - trim as real)
  }

  /** A reading off by `tenths` tenths of a step is that many steps from the ideal trim, up to half of `n` tenths. */
  ghost predicate NearLine(n: int, tenths: int, steps: real) {
    -n as real <= 2.0 * (tenths as real - 10.0 * steps) <= n as real
  }

  /** The most counts by which the reading after one correction can miss: the half counts of both readings, and what truncating
      the correction left. */
  function MostLeft(slope: int): nat
    requires slope < 0
  {
    (9 - slope) / -slope
  }

  /** Truncation leaves less than one trim step of the correction. */
  lemma TruncatedCorrection(x: int)
    ensures -9 <= 10 * DivTrunc(x, 10) - x <= 9
  {
  }

  /** After one correction the next reading is within `MostLeft` counts of nominal. */
  lemma OneCorrectionSuffices(p: Profile, i: u16, loc: u16, j: u16, ideal: real)
    requires p.slope < 0
    requires var next := loc - DivTrunc((i - p.basev) * p.slope, 10);
             0 <= next <= 0xFFFF && LinearAt(p, j, next, ideal)
    requires LinearAt(p, i, loc, ideal)
    ensures Abs(j - p.basev) <= MostLeft(p.slope)
  {
    hide DivTrunc, MostLeft, NearLine;
    var n, d, e := -p.slope, i - p.basev, j - p.basev;
    var c := DivTrunc(d * p.slope, 10);
    assert d * p.slope == -(n * d);
    TruncatedCorrection(d * p.slope);
    LinearMiss(n, n * d, n * e, c, loc, ideal);
    CountsLeft(p.slope, e);
  }

  lemma LinearMiss(n: int, x: int, y: int, c: int, loc: int, ideal: real)
    requires NearLine(n, x, ideal - loc as real) && NearLine(n, y, ideal - (loc - c) as real)
    requires -9 <= 10 * c + x <= 9
    ensures -(9 + n) <= y <= 9 + n
  {
  }

  lemma CountsLeft(slope: int, e: int)
    requires slope < 0 && -(9 - slope) <= -slope * e <= 9 - slope
    ensures Abs(e) <= MostLeft(slope)
  {
    MulAbs(-slope, e);
    DivMonotone(Abs(e) * -slope, 9 - slope, -slope);
    DivIsUnique(Abs(e) * -slope, -slope, Abs(e));
  }

  lemma MulAbs(n: nat, e: int)
    ensures Abs(n * e) == n * Abs(e) == Abs(e) * n
  {
    assert n * -e == -(n * e);
    if e < 0 { MulMonotone(0, -e, n); } else { MulMonotone(0, e, n); }
  }

  /** For any negative slope whose `MostLeft` is a figure below 11: if the two readings the call takes follow the line, the first
      does not overflow 16 bits and the corrected trim is in range, calibration ends after at most two measurements with a
      figure below 11. */
  lemma ConvergesInTwo(p: Profile, sensor: Sensor, start: u16, ideal: real)
    requires p.slope < 0 < p.basev && 10000 * MostLeft(p.slope) < 11 * p.basev
    requires Abs(sensor(0, start) - p.basev) <= 0x7FFF && LinearAt(p, sensor(0, start), start, ideal)
    requires var next := start - DivTrunc((sensor(0, start) - p.basev) * p.slope, 10);
             0 <= next <= 0xFFFF && LinearAt(p, sensor(1, next), next, ideal)
    ensures var out := Calibrate(p, sensor, 0, start, 0, 0, 0, []);
            |out.samples| <= 2 && out.error < 11
  {
    hide PerTenThousand; hide Difference; hide Correction; hide NextTrim; hide OppositeSigns; hide Scaled; hide U16;
    hide LinearAt; hide MostLeft; hide DivTrunc; hide Negated;
    var i := sensor(0, start);
    var d := i - p.basev;
    OppositeSignsMean(d, 0);
    FigureUnchanged(p, i);
    FittingDifference(p, i);
    if d != 0 && PerTenThousand(p, i) >= 11 {
      FarReading(p, i);
      var next := start - DivTrunc(d * p.slope, 10);
      var j := sensor(1, next);
      OneCorrectionSuffices(p, i, start, j, ideal);
      LargeStep(p, start, d);
      SecondEnds(p, sensor, next, start, d, Correction(p, d), [] + [Sample(start, i)]);
      assert Calibrate(p, sensor, 0, start, 0, 0, 0, [])
          == Calibrate(p, sensor, 1, next, start, d, Correction(p, d), [] + [Sample(start, i)]);
    }
  }

  lemma FigureUnchanged(p: Profile, reading: u16)
    requires 0 < p.basev
    ensures PerTenThousand(p, reading) < 11 ==> U16(PerTenThousand(p, reading)) < 11
  {
  }

  lemma FittingDifference(p: Profile, reading: u16)
    requires Abs(reading - p.basev) <= 0x7FFF
    ensures Difference(p, reading) == reading - p.basev
  {
  }

  /** The figure is below 11 exactly when the reading is near enough. */
  lemma FarReading(p: Profile, reading: u16)
    requires 0 < p.basev
    ensures PerTenThousand(p, reading) < 11 <==> 10000 * Abs(reading - p.basev) < 11 * p.basev
  {
    var x := Abs(reading - p.basev) * 10000;
    DivBounds(x, p.basev);
    if PerTenThousand(p, reading) < 11 {
      MulMonotone(x / p.basev, 10, p.basev);
    } else {
      MulMonotone(11, x / p.basev, p.basev);
    }
  }

  /** A difference beyond `MostLeft` asks for at least one step, and 16-bit wrap-around of the correction is harmless. */
  lemma LargeStep(p: Profile, loc: u16, d: i16)
    requires p.slope < 0 && MostLeft(p.slope) < Abs(d)
    requires 0 <= loc - DivTrunc(d * p.slope, 10) <= 0xFFFF
    ensures NextTrim(p, loc, d) == loc - DivTrunc(d * p.slope, 10)
  {
    hide DivTrunc; hide MostLeft;
    var n, x := -p.slope, d * p.slope;
    LeastProduct(p.slope, Abs(d));
    MulAbs(n, d);
    assert x == -(n * d);
    TruncatedCorrection(x);
    Narrowed(loc, DivTrunc(x, 10));
  }

  lemma LeastProduct(slope: int, d: nat)
    requires slope < 0 && MostLeft(slope) < d
    ensures 10 <= -slope * d
  {
    DivBounds(9 - slope, -slope);
    MulMonotone(MostLeft(slope) + 1, d, -slope);
  }

  lemma Narrowed(loc: u16, c: int)
    requires 0 <= loc - c <= 0xFFFF
    ensures U16(loc - I16(c)) == loc - c
  {
    var m := c % 0x1_0000;
    var q := c / 0x1_0000;
    assert c == q * 0x1_0000 + m;
  }

  /** A second measurement near nominal ends the loop, on whichever of the returns, with a figure below 11. */
  lemma SecondEnds(p: Profile, sensor: Sensor, loc: u16, locT: u16, diff2: i16, diffc: i16, before: seq<Sample>)
    requires 0 < p.basev && |before| == 1 && -0x8000 < diff2
    requires 10000 * Abs(sensor(1, loc) - p.basev) < 11 * p.basev
    ensures var out := Calibrate(p, sensor, 1, loc, locT, diff2, diffc, before);
            |out.samples| == 2 && out.error < 11
  {
    hide PerTenThousand; hide OppositeSigns; hide Scaled; hide U16;
    var i := sensor(1, loc);
    FarReading(p, i);
    FigureUnchanged(p, i);
    FittingDifference(p, i);
    OppositeSignsMean(Difference(p, i), diff2);
    forall x: i16 | 0 <= x <= Abs(i - p.basev) ensures Scaled(p, x) < 11 { SmallScaled(p, x); }
  }

  lemma SmallScaled(p: Profile, x: i16)
    requires 0 < p.basev && 0 <= x && 10000 * x < 11 * p.basev
    ensures Scaled(p, x) < 11
  {
    DivIsUnique(x * 10000, p.basev, x * 10000 / p.basev);
    if 11 <= x * 10000 / p.basev { MulMonotone(11, x * 10000 / p.basev, p.basev); }
  }

  /** The frequencies of hal/ch57x/ch57x_hal_sys.c, as the mode and divider that set them, down to 8 MHz. */
  predicate Selectable(mode: int, divider: int) {
    (mode == 1 && divider in {8, 10, 12, 15, 20}) || (mode == 0 && divider in {2, 4})
  }

  /** The next slower ones: 4 and 2 MHz. */
  predicate SelectableSlow(mode: int, divider: int) { mode == 0 && divider in {8, 16} }

  /** A reading on the line, rounded to whole counts, of the oscillator whose ideal trim is `ideal`. */
  function LineReading(p: Profile, ideal: int, trim: u16): u16
    requires p.slope < 0
  {
    U16(p.basev + (20 * (ideal - trim) - p.slope) / (-2 * p.slope))
  }

  function OnLine(p: Profile, ideal: int): Sensor
    requires p.slope < 0
  {
    (m: nat, trim: u16) => LineReading(p, ideal, trim)
  }

  /** The profiles in use, for the 32768 and the 32000 Hz RTC. */
  lemma ProfileTable()
    ensures ProfileFor(1, 8, 32768) == Profile(9155, -8) && ProfileFor(1, 8, 32000) == Profile(9375, -8)
    ensures ProfileFor(1, 10, 32768) == Profile(7324, -10) && ProfileFor(1, 10, 32000) == Profile(7500, -10)
    ensures ProfileFor(1, 12, 32768) == Profile(6104, -12) && ProfileFor(1, 12, 32000) == Profile(6250, -12)
    ensures ProfileFor(1, 15, 32768) == Profile(4883, -15) && ProfileFor(1, 15, 32000) == Profile(5000, -15)
    ensures ProfileFor(1, 20, 32768) == Profile(3662, -20) && ProfileFor(1, 20, 32000) == Profile(3750, -20)
    ensures ProfileFor(0, 2, 32768) == Profile(2441, -32) && ProfileFor(0, 2, 32000) == Profile(2500, -32)
    ensures ProfileFor(0, 4, 32768) == Profile(1221, -64) && ProfileFor(0, 4, 32000) == Profile(1250, -64)
    ensures ProfileFor(0, 8, 32768) == Profile(610, -128) && ProfileFor(0, 8, 32000) == Profile(625, -128)
    ensures ProfileFor(0, 16, 32768) == Profile(305, -256) && ProfileFor(0, 16, 32000) == Profile(313, -256)
  {
  }

  lemma MostLeftInUse()
    ensures MostLeft(-8) == 2 && MostLeft(-10) == MostLeft(-12) == MostLeft(-15) == MostLeft(-20) == 1
    ensures MostLeft(-32) == MostLeft(-64) == MostLeft(-128) == MostLeft(-256) == 1
  {
  }

  lemma SelectableProfiles(mode: int, divider: int, rtcFreq: int)
    requires Selectable(mode, divider) && rtcFreq in {32768, 32000}
    ensures var p := ProfileFor(mode, divider, rtcFreq);
            && -64 <= p.slope <= -8 && 70000 <= -p.slope * p.basev <= 85000
            && 0 < p.basev && 10000 * MostLeft(p.slope) < 11 * p.basev
  {
    hide ProfileFor, MostLeft;
    ProfileTable();
    MostLeftInUse();
  }

  /** At every frequency the SDK can be configured for from 8 to 60 MHz, with either RTC frequency and from the default start:
      whatever trim from 8 to 4080 is the ideal one, the oscillator on its line meets every condition of `ConvergesInTwo`
      and so calibrates in two measurements. */
  lemma SelectableClocksConverge(mode: int, divider: int, rtcFreq: int, ideal: int)
    requires Selectable(mode, divider) && rtcFreq in {32768, 32000} && 8 <= ideal <= 4080
    ensures var p := ProfileFor(mode, divider, rtcFreq);
            && p.slope < 0 < p.basev && 10000 * MostLeft(p.slope) < 11 * p.basev
            && var sensor := OnLine(p, ideal);
               var next := 2048 - DivTrunc((sensor(0, 2048) - p.basev) * p.slope, 10);
               && Abs(sensor(0, 2048) - p.basev) <= 0x7FFF && LinearAt(p, sensor(0, 2048), 2048, ideal as real)
               && 0 <= next <= 0xFFFF && LinearAt(p, sensor(1, next), next, ideal as real)
               && var out := Calibrate(p, sensor, 0, 2048, 0, 0, 0, []);
                  |out.samples| <= 2 && out.error < 11
  {
    hide Calibrate, LinearAt, LineReading, DivTrunc, ProfileFor, MostLeft;
    var p := ProfileFor(mode, divider, rtcFreq);
    SelectableProfiles(mode, divider, rtcFreq);
    OnLineIsLinear(p, ideal, 2048);
    NextOnLine(p, ideal);
    OnLineIsLinear(p, ideal, 2048 - DivTrunc((LineReading(p, ideal, 2048) - p.basev) * p.slope, 10));
    ConvergesInTwo(p, OnLine(p, ideal), 2048, ideal as real);
  }

  lemma OnLineIsLinear(p: Profile, ideal: int, trim: u16)
    requires -64 <= p.slope <= -8 && 70000 <= -p.slope * p.basev <= 85000 && 0 <= ideal <= 4095 && trim <= 4100
    ensures LinearAt(p, LineReading(p, ideal, trim), trim, ideal as real)
    ensures Abs(LineReading(p, ideal, trim) - p.basev) <= 0x7FFF
    ensures p.slope <= 2 * (-p.slope * (LineReading(p, ideal, trim) - p.basev) - 10 * (ideal - trim)) <= -p.slope
  {
    var n := -p.slope;
    var d := (20 * (ideal - trim) + n) / (2 * n);
    var x := n * d;
    DivBounds(20 * (ideal - trim) + n, 2 * n);
    assert d * (2 * n) == 2 * x;
    assert -n <= 2 * x - 20 * (ideal - trim) <= n;
    InWord(n, p.basev, d);
    assert LineReading(p, ideal, trim) == p.basev + d;
  }

  lemma InWord(n: int, basev: u16, d: int)
    requires 8 <= n <= 64 && 70000 <= n * basev <= 85000 && -41100 <= n * d <= 41100
    ensures 0 <= basev + d <= 0xFFFF && Abs(d) <= 0x7FFF
  {
    Distribute(basev, d, n);
    if basev + d < 0 { MulMonotone(basev + d, -1, n); }
    if 0x7FFF < d { MulMonotone(0x8000, d, n); }
    if d < -0x7FFF { MulMonotone(d, -0x8000, n); }
    if 0xFFFF < basev + d { MulMonotone(0x1_0000, basev + d, n); }
  }

  lemma NextOnLine(p: Profile, ideal: int)
    requires -64 <= p.slope <= -8 && 70000 <= -p.slope * p.basev <= 85000 && 8 <= ideal <= 4080
    ensures 0 <= 2048 - DivTrunc((LineReading(p, ideal, 2048) - p.basev) * p.slope, 10) <= 4100
  {
    hide LineReading, DivTrunc, LinearAt;
    OnLineIsLinear(p, ideal, 2048);
    var d := LineReading(p, ideal, 2048) - p.basev;
    var x := d * p.slope;
    assert -p.slope * d == -x;
    TruncatedCorrection(x);
  }

  /** At 4 and 2 MHz one count is already a figure above 11, and two measurements need not be enough: these two readings are on
      the line, and neither stops the loop. */
  lemma SlowClocksNeedMore(mode: int, divider: int, rtcFreq: int)
    requires SelectableSlow(mode, divider) && rtcFreq in {32768, 32000}
    ensures var p := ProfileFor(mode, divider, rtcFreq);
            && p.slope < 0 < p.basev < 1000 && 11 * p.basev <= 10000 * MostLeft(p.slope)
            && var sensor, ideal := TenThenOne(p), 2048.0 - 1.05 * p.slope as real;
               var next := 2048 - DivTrunc((sensor(0, 2048) - p.basev) * p.slope, 10);
               && LinearAt(p, sensor(0, 2048), 2048, ideal) && 0 <= next <= 0xFFFF && LinearAt(p, sensor(1, next), next, ideal)
               && var run := Run(p, sensor, 2048);
                  !run.StopsAt(0) && !run.StopsAt(1)
  {
    hide ProfileFor, MostLeft, LinearAt, OppositeSigns, NextTrim, PerTenThousand, Difference;
    var p := ProfileFor(mode, divider, rtcFreq);
    ProfileTable();
    MostLeftInUse();
    TenThenOneGoesOn(p);
    TenThenOneIsLinear(p);
  }

  /** First ten counts above nominal, then one. */
  function TenThenOneAt(p: Profile, m: nat): u16 { U16(p.basev + if m == 0 then 10 else 1) }

  function TenThenOne(p: Profile): Sensor { (m: nat, t: u16) => TenThenOneAt(p, m) }

  lemma TenThenOneIsLinear(p: Profile)
    requires 0 < p.basev < 650 && (p.slope == -128 || p.slope == -256)
    ensures var next, ideal := 2048 - DivTrunc((TenThenOneAt(p, 0) - p.basev) * p.slope, 10), 2048.0 - 1.05 * p.slope as real;
            && next == 2048 - p.slope
            && LinearAt(p, TenThenOneAt(p, 0), 2048, ideal) && LinearAt(p, TenThenOneAt(p, 1), next, ideal)
  {
    assert TenThenOneAt(p, 0) == p.basev + 10 && TenThenOneAt(p, 1) == p.basev + 1;
    hide TenThenOneAt;
    if p.slope == -128 {} else {}
  }

  lemma TenThenOneGoesOn(p: Profile)
    requires 0 < p.basev < 650
    ensures !Run(p, TenThenOne(p), 2048).StopsAt(0) && !Run(p, TenThenOne(p), 2048).StopsAt(1)
  {
    hide OppositeSigns, NextTrim, PerTenThousand;
    var run := Run(p, TenThenOne(p), 2048);
    assert run.ReadingAt(0) == TenThenOneAt(p, 0) && run.ReadingAt(1) == TenThenOneAt(p, 1);
    FarReading(p, p.basev + 10);
    FarReading(p, p.basev + 1);
    OppositeSignsMean(1, 10);
  }

  /** For slopes from -0.1 to -1.9, when every reading that is not close enough is more than `m` counts off and that asks for
      two steps or more, the bracketing return is never reached, whatever the sensor reads. */
  lemma NeverBrackets(run: Run, m: nat)
    requires -19 <= run.p.slope < 0 && 10000 * m < 11 * run.p.basev && run.p.basev + m <= 0xFFFF
    requires 20 <= -run.p.slope * (m + 1)
    ensures forall k: nat :: run.Reaches(k) ==> !run.BracketsAt(k)
    ensures Calibrate(run.p, run.sensor, 0, run.start, 0, 0, 0, []).exit != Bracketed
  {
    hide PerTenThousand; hide Difference; hide Correction; hide NextTrim; hide OppositeSigns; hide Scaled; hide U16;
    hide Negated;
    forall k: nat | run.Reaches(k) ensures !run.BracketsAt(k) {
      if k > 0 {
        assert !run.StopsAt(k - 1);
        CorrectionIsLarge(run.p, run.ReadingAt(k - 1), m);
      }
    }
    var k := run.EndFrom(0);
    run.EndIsReached(0);
    OppositeSignsMean(run.DiffAt(k), 0);
  }

  lemma CorrectionIsLarge(p: Profile, reading: u16, m: nat)
    requires -19 <= p.slope < 0 && 10000 * m < 11 * p.basev && p.basev + m <= 0xFFFF
    requires 20 <= -p.slope * (m + 1)
    requires PerTenThousand(p, reading) >= 11
    ensures Abs(Correction(p, Difference(p, reading))) >= 2
  {
    hide PerTenThousand;
    FarReading(p, reading);
    LargeCorrection(p, Difference(p, reading), m);
  }

  lemma LargeCorrection(p: Profile, diff: i16, m: nat)
    requires -19 <= p.slope < 0 && 20 <= -p.slope * (m + 1) && m < Abs(diff)
    ensures Abs(Correction(p, diff)) >= 2
  {
    hide DivTrunc;
    var n, x := -p.slope, diff * p.slope;
    MulMonotone(m + 1, Abs(diff), n);
    MulAbs(n, diff);
    assert x == -(n * diff);
    MulMonotone(n, 19, Abs(diff));
    TruncatedCorrection(x);
    WrapsFarFromZero(DivTrunc(x, 10));
  }

  lemma WrapsFarFromZero(c: int)
    requires 2 <= Abs(c) <= 0xFFFD
    ensures Abs(I16(c)) >= 2
  {
  }

  /** So at 60, 48, 40 and 32 MHz it is never reached. */
  lemma PllClocksNeverBracket(divider: int, rtcFreq: int, sensor: Sensor, start: u16)
    requires divider in {8, 10, 12, 15} && rtcFreq in {32768, 32000}
    ensures Calibrate(ProfileFor(1, divider, rtcFreq), sensor, 0, start, 0, 0, 0, []).exit != Bracketed
  {
    hide Calibrate, ProfileFor;
    var p := ProfileFor(1, divider, rtcFreq);
    ProfileTable();
    NeverBrackets(Run(p, sensor, start), 2);
  }
}
