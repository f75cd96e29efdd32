/** The coarse trim loop of hal/ch58x/ch58x_hal_clk.c.  The capture counter is an arbitrary sensor: `sensor(m, trim)` is
    capture number `m`, taken with `trim` in the register. */
module LsiCalibration58 {
  import opened MachineInts

  const MAX_RETRIES: nat := 3

  /** The count register and the overflow count read after one capture. */
  datatype Capture = Capture(count: u16, overflows: u8)

  type Sensor = (nat, u16) -> Capture

  /** The system and RTC frequencies, in the range where no 32-bit product wraps. */
  datatype Clock = Clock(freqSys: int, rtcFreq: int)

  predicate Usable(clk: Clock) {
    0 < clk.freqSys <= 1_000_000_000 && 0 < clk.rtcFreq
  }

  // ----- the code ------------------------------------------------------------------------------------------------

  /** `37 * (freq_sys / 1000) / CONFIG_SOC_RTC_FREQ`: one coarse trim step, and the width of the accepted band. */
  function Threshold(clk: Clock): int
    requires Usable(clk)
  {
    37 * (clk.freqSys / 1000) / clk.rtcFreq
  }

  /** The signed distance from nominal, computed in unsigned words. */
  function Offset(clk: Clock, c: Capture): i32
    requires Usable(clk)
  {
    I32(U32(c.count % 0x4000 + U32(c.overflows * 0x3FFF) - 2000 * (clk.freqSys / 1000) / clk.rtcFreq))
  }

  function Correction(s: int, offset: int): int
    requires 0 < s
  {
    if offset > 0 then DivTrunc(DivTrunc(offset * 2, s) + 1, 2) else DivTrunc(DivTrunc(offset * 2, s) - 1, 2)
  }

  /** One measurement: the trim, the offset it gave and the correction then applied, 0 for the last. */
  datatype Trial = Trial(trim: u16, offset: i32, correction: int)

  datatype Outcome = Outcome(register: u16, offset: i32, trials: seq<Trial>)

  function Coarse(clk: Clock, sensor: Sensor, retry: nat, trim: u16, before: seq<Trial>): Outcome
    requires Usable(clk) && 0 < Threshold(clk) && retry <= MAX_RETRIES
    decreases MAX_RETRIES - retry
  {
    var s := Threshold(clk);
    var offset := Offset(clk, sensor(retry, trim));
    if (-s < offset < s) || retry == MAX_RETRIES then
      Outcome(trim, offset, before + [Trial(trim, offset, 0)])
    else
      var c := Correction(s, offset);
      Coarse(clk, sensor, retry + 1, U16(trim + c), before + [Trial(trim, offset, c)])
  }

  class LsiOscillator {
    var register: u16  // R16_INT32K_TUNE

    /** The coarse part of `hal_clk_lsi_calibrate`. */
    method CalibrateCoarse(clk: Clock, sensor: Sensor) returns (offset: i32, trials: seq<Trial>)
      requires Usable(clk) && 0 < Threshold(clk)
      modifies this
      ensures Outcome(register, offset, trials) == Coarse(clk, sensor, 0, old(register), [])
    {
      hide Offset, Correction, U16, Threshold, DivTrunc;
      LowerEdge(clk);
      var retry := 0;
      trials := [];
      while true
        invariant retry <= MAX_RETRIES
        invariant Coarse(clk, sensor, retry, register, trials) == Coarse(clk, sensor, 0, old(register), [])
        decreases MAX_RETRIES - retry
      {
        offset := Offset(clk, sensor(retry, register));
        if (offset > DivTrunc(-37 * (clk.freqSys / 1000), clk.rtcFreq) && offset < Threshold(clk)) || retry > 2 {
          trials := trials + [Trial(register, offset, 0)];
          break;
        }
        var c := Correction(Threshold(clk), offset);
        trials := trials + [Trial(register, offset, c)];
        register := U16(register + c);
        retry := retry + 1;
      }
    }
  }

  /** The loop's lower test is the mirror image of the upper one. */
  lemma LowerEdge(clk: Clock)
    requires Usable(clk)
    ensures DivTrunc(-37 * (clk.freqSys / 1000), clk.rtcFreq) == -Threshold(clk)
  {
  }

  // ----- the numbers, by inequalities -----------------------------------------------------------------------------

  /** `n` is `per` kilohertz counts divided by the RTC frequency, rounded down. */
  ghost predicate CountsOf(clk: Clock, per: int, n: int) {
    n * clk.rtcFreq <= per * (clk.freqSys / 1000) < (n + 1) * clk.rtcFreq
  }

  /** The offset is the count with the overflows, 0x3FFF each, less the nominal count of 2000 periods; for every usable clock
      and every capture no word of it wraps. */
  lemma OffsetIs(clk: Clock, c: Capture, nominal: int)
    requires Usable(clk) && CountsOf(clk, 2000, nominal)
    ensures Offset(clk, c) == c.count % 0x4000 + 0x3FFF * c.overflows - nominal
  {
    hide U32, I32;
    var k := 2000 * (clk.freqSys / 1000);
    DivIsUnique(k, clk.rtcFreq, nominal);
    Quotients(k, clk.rtcFreq);
    NoWrap32(c.overflows * 0x3FFF);
    SignedWord(c.count % 0x4000 + c.overflows * 0x3FFF - nominal);
  }

  lemma Quotients(k: nat, d: int)
    requires 0 < d
    ensures 0 <= k / d <= k
  {
    DivBounds(k, d);
    MulMonotone(1, d, k / d);
  }

  lemma SignedWord(x: int)
    requires -0x8000_0000 <= x < 0x8000_0000
    ensures I32(U32(x)) == x
  {
  }

  /** The band is 37 periods wide on either side. */
  lemma ThresholdIs(clk: Clock, width: int)
    requires Usable(clk)
    ensures width == Threshold(clk) <==> CountsOf(clk, 37, width)
  {
    DivIsUnique(37 * (clk.freqSys / 1000), clk.rtcFreq, width);
  }

  // ----- what the loop guarantees --------------------------------------------------------------------------------

  /** `c` is `offset / s` rounded to nearest, halves away from zero. */
  ghost predicate NearestAway(offset: int, s: int, c: int) {
    if offset > 0 then (2 * c - 1) * s <= 2 * offset < (2 * c + 1) * s
    else (2 * c - 1) * s < 2 * offset <= (2 * c + 1) * s
  }

  /** Rounding up the halved, doubled quotient of a positive offset. */
  lemma HalvedQuotient(a: nat, s: int)
    requires 0 < s
    ensures var c := ((a * 2) / s + 1) / 2;
            (2 * c - 1) * s <= 2 * a < (2 * c + 1) * s && (s <= a ==> c >= 1)
  {
    var q := (a * 2) / s;
    var c := (q + 1) / 2;
    DivBounds(a * 2, s);
    MulMonotone(2 * c - 1, q, s);
    MulMonotone(q + 1, 2 * c + 1, s);
    Distribute(q, 1, s);
    if s <= a { DivMonotone(2 * s, 2 * a, s); DivIsUnique(2 * s, s, 2); }
  }

  lemma CorrectionIsNearest(s: int, offset: int)
    requires 0 < s && s <= Abs(offset)
    ensures NearestAway(offset, s, Correction(s, offset)) && Correction(s, offset) != 0
  {
    HalvedQuotient(Abs(offset), s);
    var c := ((Abs(offset) * 2) / s + 1) / 2;
    if offset < 0 {
      assert Correction(s, offset) == -c;
      assert (2 * -c - 1) * s == -((2 * c + 1) * s) && (2 * -c + 1) * s == -((2 * c - 1) * s);
    }
  }

  /** The trials run from `start`, each at the trim the previous correction led to, ending at `trim`; each offset is the
      sensor's; each was out of band and answered by the nearest correction, never zero. */
  ghost predicate Corrections(clk: Clock, sensor: Sensor, start: u16, trials: seq<Trial>, trim: u16)
    requires Usable(clk)
  {
    && (trials != [] ==> trials[0].trim == start)
    && (forall m :: 0 < m < |trials| ==> trials[m].trim == U16(trials[m - 1].trim + trials[m - 1].correction))
    && (forall m :: 0 <= m < |trials| ==>
          && trials[m].offset == Offset(clk, sensor(m, trials[m].trim))
          && Threshold(clk) <= Abs(trials[m].offset)
          && NearestAway(trials[m].offset, Threshold(clk), trials[m].correction)
          && trials[m].correction != 0)
    && trim == if trials == [] then start else U16(trials[|trials| - 1].trim + trials[|trials| - 1].correction)
  }

  /** The corrections made, and then one last measurement that is in band unless all three corrections are spent. */
  ghost predicate Sound(clk: Clock, sensor: Sensor, start: u16, out: Outcome)
    requires Usable(clk)
  {
    var n := |out.trials|;
    && 1 <= n <= 4
    && Corrections(clk, sensor, start, out.trials[..n - 1], out.register)
    && out.trials[n - 1] == Trial(out.register, out.offset, 0)
    && out.offset == Offset(clk, sensor(n - 1, out.register))
    && (Abs(out.offset) < Threshold(clk) || n == 4)
  }

  lemma {:induction false} LoopIsSound(clk: Clock, sensor: Sensor, retry: nat, trim: u16, before: seq<Trial>, start: u16)
    requires Usable(clk) && 0 < Threshold(clk) && retry <= MAX_RETRIES && |before| == retry
    requires Corrections(clk, sensor, start, before, trim)
    ensures Sound(clk, sensor, start, Coarse(clk, sensor, retry, trim, before))
    decreases MAX_RETRIES - retry
  {
    hide Offset, Correction, NearestAway, Threshold, U16, Corrections, Sound, Usable;
    var s, offset := Threshold(clk), Offset(clk, sensor(retry, trim));
    if (-s < offset < s) || retry == MAX_RETRIES {
      LastMeasurement(clk, sensor, retry, trim, before, start);
    } else {
      var c := Correction(s, offset);
      CorrectionIsNearest(s, offset);
      OneMoreCorrection(clk, sensor, start, before, trim, c);
      LoopIsSound(clk, sensor, retry + 1, U16(trim + c), before + [Trial(trim, offset, c)], start);
    }
  }

  lemma LastMeasurement(clk: Clock, sensor: Sensor, retry: nat, trim: u16, before: seq<Trial>, start: u16)
    requires Usable(clk) && retry <= MAX_RETRIES && |before| == retry && Corrections(clk, sensor, start, before, trim)
    requires Abs(Offset(clk, sensor(retry, trim))) < Threshold(clk) || retry == MAX_RETRIES
    ensures var offset := Offset(clk, sensor(retry, trim));
            Sound(clk, sensor, start, Outcome(trim, offset, before + [Trial(trim, offset, 0)]))
  {
    hide Offset, Threshold, Corrections, Usable;
    var offset := Offset(clk, sensor(retry, trim));
    assert (before + [Trial(trim, offset, 0)])[..retry] == before;
  }

  lemma OneMoreCorrection(clk: Clock, sensor: Sensor, start: u16, before: seq<Trial>, trim: u16, c: int)
    requires Usable(clk) && Corrections(clk, sensor, start, before, trim)
    requires var offset := Offset(clk, sensor(|before|, trim));
             Threshold(clk) <= Abs(offset) && NearestAway(offset, Threshold(clk), c) && c != 0
    ensures Corrections(clk, sensor, start, before + [Trial(trim, Offset(clk, sensor(|before|, trim)), c)], U16(trim + c))
  {
    hide Offset; hide Correction; hide NearestAway; hide Threshold; hide U16;
  }

  /** For any sensor: at most four measurements and three corrections, each the nearest whole number of steps and never zero;
      the loop ends inside the band or with all three corrections spent; the register ends at the trim measured last. */
  lemma CoarseIsSound(clk: Clock, sensor: Sensor, start: u16)
    requires Usable(clk) && 0 < Threshold(clk)
    ensures Sound(clk, sensor, start, Coarse(clk, sensor, 0, start, []))
  {
    LoopIsSound(clk, sensor, 0, start, [], start);
  }

  /** The distance of a capture from nominal. */
  function Distance(c: Capture, nominal: int): int { c.count % 0x4000 + 0x3FFF * c.overflows - nominal }

  /** Out of band, and moved by the nearest whole number of steps, not none. */
  ghost predicate Moved(distance: int, width: int, here: u16, there: u16) {
    width <= Abs(distance) && exists steps: int :: steps != 0 && NearestAway(distance, width, steps) && there == U16(here + steps)
  }

  /** The same in terms of captures and frequencies alone: with the nominal count and the width of the band, each measurement
      but the last was out of band and moved the trim by the nearest whole number of steps, never none; the last is in band
      or the fourth. */
  lemma CoarseIsSoundInCounts(clk: Clock, sensor: Sensor, start: u16, nominal: int, width: int)
    requires Usable(clk) && 0 < width && CountsOf(clk, 2000, nominal) && CountsOf(clk, 37, width)
    ensures 0 < Threshold(clk)
    ensures var out := Coarse(clk, sensor, 0, start, []);
            var n := |out.trials|;
            && 1 <= n <= 4 && out.trials[0].trim == start && out.trials[n - 1].trim == out.register
            && (-width < Distance(sensor(n - 1, out.register), nominal) < width || n == 4)
            && forall m {:trigger out.trials[m]} :: 0 <= m < n - 1 ==>
                 Moved(Distance(sensor(m, out.trials[m].trim), nominal), width, out.trials[m].trim, out.trials[m + 1].trim)
  {
    hide Offset, Threshold, Coarse, CountsOf, NearestAway, U16;
    ThresholdIs(clk, width);
    CoarseIsSound(clk, sensor, start);
    var out := Coarse(clk, sensor, 0, start, []);
    var n := |out.trials|;
    OffsetIs(clk, sensor(n - 1, out.register), nominal);
    var prior := out.trials[..n - 1];
    assert n == 1 ==> prior == [];
    assert n > 1 ==> out.trials[0] == prior[0] && prior[0].trim == start;
    forall m | 0 <= m < n - 1
      ensures Moved(Distance(sensor(m, out.trials[m].trim), nominal), width, out.trials[m].trim, out.trials[m + 1].trim)
    {
      assert prior[m] == out.trials[m];
      assert m + 1 < n - 1 ==> prior[m + 1] == out.trials[m + 1];
      OffsetIs(clk, sensor(m, out.trials[m].trim), nominal);
    }
  }

  /** The offset falls by one threshold per trim step, up to a quarter threshold; `ideal` fixes the line. */
  ghost predicate LinearAt(s: int, offset: int, trim: int, ideal: int) {
    -s < 4 * (offset + s * trim - ideal) < s
  }

  /** If the two offsets it takes follow the line, and the corrected trim does not wrap, one correction is enough. */
  lemma OneCorrectionConverges(clk: Clock, sensor: Sensor, start: u16, ideal: int)
    requires Usable(clk) && 0 < Threshold(clk)
    requires LinearAt(Threshold(clk), Offset(clk, sensor(0, start)), start, ideal)
    requires var next := start + Correction(Threshold(clk), Offset(clk, sensor(0, start)));
             0 <= next <= 0xFFFF && LinearAt(Threshold(clk), Offset(clk, sensor(1, next)), next, ideal)
    ensures var out := Coarse(clk, sensor, 0, start, []);
            |out.trials| <= 2 && Abs(out.offset) < Threshold(clk)
  {
    hide Offset; hide Correction; hide Threshold; hide NearestAway; hide U16; hide LinearAt;
    var s, offset := Threshold(clk), Offset(clk, sensor(0, start));
    if s <= Abs(offset) {
      var c := Correction(s, offset);
      CorrectionIsNearest(s, offset);
      var next := start + c;
      NextInBand(s, offset, Offset(clk, sensor(1, next)), start, c, ideal);
      TrimInRange(start, c);
      assert Coarse(clk, sensor, 0, start, []) == Coarse(clk, sensor, 1, next, [] + [Trial(start, offset, c)]);
    }
  }

  /** The oscillator on the line at the default clock, 60 MHz with a 32768 Hz RTC: nominal count 3662, 67 counts a step. */
  function OnLine(ideal: int): Sensor {
    (m: nat, trim: u16) => Capture(U16(3662 + ideal - 67 * trim), 0)
  }

  /** There the conditions of `OneCorrectionConverges` are met whenever the first trim is within 40 steps of the ideal one. */
  lemma DefaultClockConverges(start: u16, ideal: int)
    requires 100 <= start <= 0xFF00 && Abs(ideal - 67 * start) <= 67 * 40
    ensures var clk := Clock(60_000_000, 32768);
            && Threshold(clk) == 67
            && var first := Offset(clk, OnLine(ideal)(0, start));
               && first == ideal - 67 * start && LinearAt(67, first, start, ideal)
               && var next := start + Correction(67, first);
                  && 0 <= next <= 0xFFFF && LinearAt(67, Offset(clk, OnLine(ideal)(1, next)), next, ideal)
                  && var out := Coarse(clk, OnLine(ideal), 0, start, []);
                     |out.trials| <= 2 && Abs(out.offset) < 67
  {
    hide Coarse, Correction;
    var clk := Clock(60_000_000, 32768);
    OffsetOnLine(start, ideal);
    SmallCorrection(ideal - 67 * start);
    OffsetOnLine(start + Correction(67, ideal - 67 * start), ideal);
    OneCorrectionConverges(clk, OnLine(ideal), start, ideal);
  }

  lemma OffsetOnLine(trim: u16, ideal: int)
    requires Abs(ideal - 67 * trim) <= 67 * 50
    ensures forall m: nat :: Offset(Clock(60_000_000, 32768), OnLine(ideal)(m, trim)) == ideal - 67 * trim
  {
    hide Offset;
    OffsetOf(ideal - 67 * trim);
  }

  lemma OffsetOf(offset: int)
    requires Abs(offset) <= 67 * 50
    ensures Offset(Clock(60_000_000, 32768), Capture(U16(3662 + offset), 0)) == offset
  {
    assert U16(3662 + offset) % 0x4000 == 3662 + offset;
    assert 2000 * (60_000_000 / 1000) / 32768 == 3662;
  }

  lemma SmallCorrection(offset: int)
    requires Abs(offset) <= 67 * 40
    ensures var c := Correction(67, offset); Abs(c) <= 41 && Abs(offset - 67 * c) <= 67
  {
  }

  lemma TrimInRange(trim: u16, c: int)
    requires 0 <= trim + c <= 0xFFFF
    ensures U16(trim + c) == trim + c
  {
  }

  lemma NextInBand(s: int, first: int, second: int, trim: int, c: int, ideal: int)
    requires 0 < s && NearestAway(first, s, c)
    requires LinearAt(s, first, trim, ideal) && LinearAt(s, second, trim + c, ideal)
    ensures Abs(second) < s
  {
    Distribute(trim, c, s);
    assert s * (trim + c) == s * trim + c * s;
    Distribute(2 * c, 1, s);
    Distribute(2 * c, -1, s);
    assert (2 * c) * s == 2 * (c * s);
  }
}
