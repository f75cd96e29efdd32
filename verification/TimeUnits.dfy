/** The time-unit converter of include/sys/time_units.h.  `Tmcvt` follows the C text path by path on machine words;
    `Rounds` says what each rounding mode means, without dividing. */
module TimeUnits {
  import opened MachineInts

  datatype Rounding = Floor | Near | Ceil

  /** What the two C flags select: `round_off` is tested last and wins. */
  function Mode(roundUp: bool, roundOff: bool): Rounding {
    if roundOff then Near else if roundUp then Ceil else Floor
  }

  function Narrow(x: int, result32: bool): u64 {
    if result32 then U32(x) else U64(x)
  }

  // ----- the code ------------------------------------------------------------------------------------------------

  /** `Z_TMCVT_USE_FAST_ALGO`, whose own 64-bit arithmetic may wrap. */
  predicate UseFastAlgo(fromHz: u32, toHz: u32, maxDays: u64) {
    FastAlgoFor(U64(U64(U64(maxDays * 24) * 3600) * fromHz), toHz)
  }

  predicate FastAlgoFor(longest: u64, toHz: u32) {
    ScaledAlgoFor(Quot(U64(longest + (0xFFFF_FFFF - 1)), 0xFFFF_FFFF), toHz)
  }

  predicate ScaledAlgoFor(scaled: u64, toHz: u32) {
    U64(scaled * toHz) <= 0xFFFF_FFFF
  }

  predicate MulRatio(fromHz: u32, toHz: u32, constHz: bool)
    requires 0 < fromHz
  {
    constHz && toHz > fromHz && toHz % fromHz == 0
  }

  predicate DivRatio(fromHz: u32, toHz: u32, constHz: bool)
    requires constHz ==> 0 < toHz
  {
    constHz && fromHz > toHz && fromHz % toHz == 0
  }

  function Offset(divisor: u32, roundUp: bool, roundOff: bool): u64
    requires 0 < divisor
  {
    var up: u32 := if roundUp then divisor - 1 else 0;
    if roundOff then divisor / 2 else up
  }

  function DivRatioPath(t: u64, off: u64, ratio: u32, result32: bool): u64
    requires 0 < ratio
  {
    var shifted := U64(t + off);
    if result32 && shifted < 0x1_0000_0000 then Quot(U32(shifted), ratio) else Quot(shifted, ratio)
  }

  function MulRatioPath(t: u64, ratio: u32, result32: bool): u64 {
    if result32 then U32(U32(t) * ratio) else U64(t * ratio)
  }

  function MultiplyFirst(t: u64, fromHz: u32, toHz: u32, off: u64): u64
    requires 0 < fromHz
  {
    Quot(U64(U64(t * toHz) + off), fromHz)
  }

  function DivideFirst(t: u64, fromHz: u32, toHz: u32, off: u64): u64
    requires 0 < fromHz
  {
    U64(U64((t / fromHz) * toHz) + Quot(U64(U64((t % fromHz) * toHz) + off), fromHz))
  }

  function FullPrecisionPath(t: u64, fromHz: u32, toHz: u32, off: u64, result32: bool, fast: bool): u64
    requires 0 < fromHz
  {
    if result32 then
      U32(MultiplyFirst(t, fromHz, toHz, off))
    else if fast then
      MultiplyFirst(t, fromHz, toHz, off)
    else
      DivideFirst(t, fromHz, toHz, off)
  }

  /** `z_tmcvt`.  `fast` is the value of the guard macro for the two frequencies. */
  function Tmcvt(t: u64, fromHz: u32, toHz: u32, constHz: bool, result32: bool, roundUp: bool, roundOff: bool,
                 fast: bool): u64
    requires 0 < fromHz && (constHz ==> 0 < toHz)
  {
    if fromHz == toHz then
      if result32 then U32(t) else t
    else if DivRatio(fromHz, toHz, constHz) then
      var ratio := Quot(fromHz, toHz);
      DivRatioPath(t, Offset(ratio, roundUp, roundOff), ratio, result32)
    else if MulRatio(fromHz, toHz, constHz) then
      MulRatioPath(t, Quot(toHz, fromHz), result32)
    else
      FullPrecisionPath(t, fromHz, toHz, Offset(fromHz, roundUp, roundOff), result32, constHz && fast)
  }

  // ----- what rounding means -------------------------------------------------------------------------------------

  /** `q` is `num / den` rounded down, to nearest with halves up, or up. */
  ghost predicate Rounds(m: Rounding, num: int, den: int, q: int) {
    match m
    case Floor => q * den <= num < (q + 1) * den
    case Near => (2 * q - 1) * den <= 2 * num < (2 * q + 1) * den
    case Ceil => (q - 1) * den < num <= q * den
  }

  function Bias(m: Rounding, den: nat): (b: nat)
    requires 0 < den
    ensures b < den
  {
    match m
    case Floor => 0
    case Near => den / 2
    case Ceil => den - 1
  }

  function Exact(m: Rounding, num: nat, den: nat): nat
    requires 0 < den
  {
    Quot(num + Bias(m, den), den)
  }

  /** Biased integer division rounds as the mode asks, for odd divisors too, and nothing else does. */
  lemma ExactRounds(m: Rounding, num: nat, den: nat, q: int)
    requires 0 < den
    ensures Rounds(m, num, den, q) <==> q == Exact(m, num, den)
  {
    DivIsUnique(num + Bias(m, den), den, q);
    assert (q + 1) * den == q * den + den;
    assert (q - 1) * den == q * den - den;
    if m == Near {
      assert (2 * q - 1) * den == 2 * (q * den) - den;
      assert (2 * q + 1) * den == 2 * (q * den) + den;
    }
  }

  // ----- every path is exact -------------------------------------------------------------------------------------

  /** The input makes no 64-bit intermediate of the path it takes wrap.  The identity, the up-ratio and the divide-first
      path need nothing. */
  predicate Safe(t: u64, fromHz: u32, toHz: u32, constHz: bool, result32: bool, roundUp: bool, roundOff: bool,
                 fast: bool)
    requires 0 < fromHz && (constHz ==> 0 < toHz)
  {
    if fromHz == toHz || MulRatio(fromHz, toHz, constHz) then
      true
    else if DivRatio(fromHz, toHz, constHz) then
      t + Offset(Quot(fromHz, toHz), roundUp, roundOff) < 0x1_0000_0000_0000_0000
    else if result32 || (constHz && fast) then
      t * toHz + Offset(fromHz, roundUp, roundOff) < 0x1_0000_0000_0000_0000
    else
      true
  }

  lemma OffsetIsBias(divisor: u32, roundUp: bool, roundOff: bool)
    requires 0 < divisor
    ensures Offset(divisor, roundUp, roundOff) == Bias(Mode(roundUp, roundOff), divisor) < divisor
  {
  }

  /** Scaling numerator and denominator by a common factor does not change what rounding gives. */
  lemma ExactScales(m: Rounding, num: nat, den: nat, k: nat)
    requires 0 < den && 0 < k
    ensures Exact(m, num * k, den * k) == Exact(m, num, den)
  {
    var q := Exact(m, num, den);
    assert 0 < den * k;
    ExactRounds(m, num, den, q);
    RoundsScales(m, num, den, k, q);
    ExactRounds(m, num * k, den * k, q);
  }

  lemma RoundsScales(m: Rounding, num: int, den: int, k: int, q: int)
    requires 0 < k && Rounds(m, num, den, q)
    ensures Rounds(m, num * k, den * k, q)
  {
    match m
    case Floor =>
      CompareScaled(q, den, num, k);
      CompareScaled(q + 1, den, num, k);
    case Near =>
      CompareScaled(2 * q - 1, den, 2 * num, k);
      CompareScaled(2 * q + 1, den, 2 * num, k);
      assert (2 * num) * k == 2 * (num * k);
    case Ceil =>
      CompareScaled(q - 1, den, num, k);
      CompareScaled(q, den, num, k);
  }

  /** Whole units convert without rounding. */
  lemma ExactOfMultiple(m: Rounding, q: nat, den: nat)
    requires 0 < den
    ensures Exact(m, q * den, den) == q
  {
    DivIsUnique(q * den + Bias(m, den), den, q);
  }

  /** Dividing first and adding the converted remainder is the same conversion. */
  lemma ExactSplits(m: Rounding, t: nat, fromHz: nat, toHz: nat)
    requires 0 < fromHz
    ensures Exact(m, t * toHz, fromHz) == (t / fromHz) * toHz + Exact(m, (t % fromHz) * toHz, fromHz)
  {
    hide Bias;
    var d, r := t / fromHz, t % fromHz;
    assert t * toHz == r * toHz + (d * toHz) * fromHz by {
      assert t == d * fromHz + r;
      assert (d * fromHz + r) * toHz == (d * fromHz) * toHz + r * toHz;
    }
    DivShift(r * toHz + Bias(m, fromHz), d * toHz, fromHz);
  }

  /** A product of two 32-bit numbers and a 32-bit rounding offset fit one 64-bit word. */
  lemma ProductFits(a: u32, b: u32, off: u32)
    ensures a * b + off < 0x1_0000_0000_0000_0000
  {
    MulMonotone(a, 0xFFFF_FFFF, b);
  }

  /** Every path returns the correctly rounded `t * toHz / fromHz`, modulo the width of the result. */
  lemma TmcvtIsExact(t: u64, fromHz: u32, toHz: u32, constHz: bool, result32: bool, roundUp: bool, roundOff: bool,
                     fast: bool)
    requires 0 < fromHz && (constHz ==> 0 < toHz)
    requires Safe(t, fromHz, toHz, constHz, result32, roundUp, roundOff, fast)
    ensures Narrow(Tmcvt(t, fromHz, toHz, constHz, result32, roundUp, roundOff, fast), result32)
         == Narrow(Exact(Mode(roundUp, roundOff), t * toHz, fromHz), result32)
    ensures result32 && !DivRatio(fromHz, toHz, constHz) ==>
              Tmcvt(t, fromHz, toHz, constHz, result32, roundUp, roundOff, fast) < 0x1_0000_0000
  {
    var m := Mode(roundUp, roundOff);
    if fromHz == toHz {
      ExactOfMultiple(m, t, fromHz);
      NarrowTwice(t);
    } else if DivRatio(fromHz, toHz, constHz) {
      OffsetIsBias(Quot(fromHz, toHz), roundUp, roundOff);
      DivRatioPathIsExact(m, t, fromHz, toHz, result32);
    } else if MulRatio(fromHz, toHz, constHz) {
      MulRatioPathIsExact(m, t, fromHz, toHz, result32);
      NarrowTwice(Exact(m, t * toHz, fromHz));
    } else {
      OffsetIsBias(fromHz, roundUp, roundOff);
      FullPrecisionPathIsExact(m, t, fromHz, toHz, result32, constHz && fast);
    }
  }

  lemma FullPrecisionPathIsExact(m: Rounding, t: u64, fromHz: u32, toHz: u32, result32: bool, fast: bool)
    requires 0 < fromHz
    requires result32 || fast ==> t * toHz + Bias(m, fromHz) < 0x1_0000_0000_0000_0000
    ensures Narrow(FullPrecisionPath(t, fromHz, toHz, Bias(m, fromHz), result32, fast), result32)
         == Narrow(Exact(m, t * toHz, fromHz), result32)
  {
    var exact := Exact(m, t * toHz, fromHz);
    NarrowTwice(exact);
    if !result32 && !fast {
      assert DivideFirst(t, fromHz, toHz, Bias(m, fromHz)) == U64(exact) by { DivideFirstIsExact(m, t, fromHz, toHz); }
    } else {
      assert MultiplyFirst(t, fromHz, toHz, Bias(m, fromHz)) == exact by { MultiplyFirstExactIff(m, t, fromHz, toHz); }
    }
  }

  lemma NarrowTwice(x: int)
    ensures Narrow(U32(x), true) == Narrow(x, true) == U32(x)
    ensures Narrow(U64(x), false) == Narrow(x, false) == U64(x)
  {
  }

  lemma DivRatioPathIsExact(m: Rounding, t: u64, fromHz: u32, toHz: u32, result32: bool)
    requires 0 < toHz <= fromHz && fromHz % toHz == 0
    requires t + Bias(m, Quot(fromHz, toHz)) < 0x1_0000_0000_0000_0000
    ensures DivRatioPath(t, Bias(m, Quot(fromHz, toHz)), Quot(fromHz, toHz), result32) == Exact(m, t * toHz, fromHz)
  {
    hide Quot; hide Bias;
    var ratio := Quot(fromHz, toHz);
    NoWrap64(t + Bias(m, ratio));
    assert DivRatioPath(t, Bias(m, ratio), ratio, result32) == Exact(m, t, ratio);
    RatioIsExact(m, t, fromHz, toHz);
  }

  lemma MulRatioPathIsExact(m: Rounding, t: u64, fromHz: u32, toHz: u32, result32: bool)
    requires 0 < fromHz && toHz % fromHz == 0
    ensures MulRatioPath(t, Quot(toHz, fromHz), result32) == Narrow(Exact(m, t * toHz, fromHz), result32)
  {
    InverseRatioIsExact(m, t, fromHz, toHz);
    WrapProduct32(t, Quot(toHz, fromHz));
  }

  lemma RatioIsExact(m: Rounding, t: nat, fromHz: nat, toHz: nat)
    requires 0 < toHz <= fromHz && fromHz % toHz == 0
    ensures Exact(m, t, Quot(fromHz, toHz)) == Exact(m, t * toHz, fromHz)
  {
    assert fromHz == Quot(fromHz, toHz) * toHz;
    ExactScales(m, t, Quot(fromHz, toHz), toHz);
  }

  lemma InverseRatioIsExact(m: Rounding, t: nat, fromHz: nat, toHz: nat)
    requires 0 < fromHz && toHz % fromHz == 0
    ensures t * Quot(toHz, fromHz) == Exact(m, t * toHz, fromHz)
  {
    var r := Quot(toHz, fromHz);
    assert toHz == r * fromHz;
    assert t * toHz == (t * r) * fromHz;
    ExactOfMultiple(m, t * r, fromHz);
  }

  lemma WrapRest(rest: nat, off: nat)
    requires rest + off < 0x1_0000_0000_0000_0000
    ensures U64(U64(rest) + off) == rest + off
  {
  }

  /** Multiplying first is exact exactly when the product and offset fit the word. */
  lemma MultiplyFirstExactIff(m: Rounding, t: u64, fromHz: u32, toHz: u32)
    requires 0 < fromHz
    ensures MultiplyFirst(t, fromHz, toHz, Bias(m, fromHz)) == Exact(m, t * toHz, fromHz)
       <==> t * toHz + Bias(m, fromHz) < 0x1_0000_0000_0000_0000
  {
    hide Quot; hide U64; hide Bias;
    WrapSum64(t * toHz, Bias(m, fromHz));
    WrappedQuotient(t * toHz + Bias(m, fromHz), fromHz);
  }

  /** What the fast form computes when it does wrap. */
  lemma MultiplyFirstIs(t: u64, fromHz: u32, toHz: u32, off: u64, q: int)
    requires 0 < fromHz && q * fromHz <= U64(t * toHz + off) < q * fromHz + fromHz
    ensures MultiplyFirst(t, fromHz, toHz, off) == q
  {
    hide U64;
    WrapSum64(t * toHz, off);
    Distribute(q, 1, fromHz);
    DivIsUnique(U64(t * toHz + off), fromHz, q);
  }

  lemma WrappedQuotient(sum: nat, d: u32)
    requires 0 < d
    ensures Quot(U64(sum), d) == Quot(sum, d) <==> sum < 0x1_0000_0000_0000_0000
  {
    if 0x1_0000_0000_0000_0000 <= sum {
      DivShift(U64(sum), 1, d);
      DivMonotone(U64(sum) + 1 * d, sum, d);
    }
  }

  lemma DivideFirstIsExact(m: Rounding, t: u64, fromHz: u32, toHz: u32)
    requires 0 < fromHz
    ensures DivideFirst(t, fromHz, toHz, Bias(m, fromHz)) == U64(Exact(m, t * toHz, fromHz))
  {
    hide Quot; hide U64; hide Bias; hide Exact;
    var whole, rest := (t / fromHz) * toHz, (t % fromHz) * toHz;
    ProductFits(t % fromHz, toHz, Bias(m, fromHz));
    ExactSplits(m, t, fromHz, toHz);
    RestIsExact(m, rest, fromHz);
    WrapSum64(whole, Exact(m, rest, fromHz));
  }

  lemma RestIsExact(m: Rounding, rest: nat, fromHz: u32)
    requires 0 < fromHz && rest + Bias(m, fromHz) < 0x1_0000_0000_0000_0000
    ensures Quot(U64(U64(rest) + Bias(m, fromHz)), fromHz) == Exact(m, rest, fromHz)
  {
    hide Quot; hide U64; hide Bias;
    WrapRest(rest, Bias(m, fromHz));
  }

  /** The `k_*_to_*_{floor,near,ceil}32` family: for a 32-bit argument nothing wraps and the answer is exact, whichever
      path the frequencies select. */
  lemma Convert32IsExact(t: u32, fromHz: u32, toHz: u32, constHz: bool, roundUp: bool, roundOff: bool, fast: bool)
    requires 0 < fromHz && (constHz ==> 0 < toHz)
    ensures Safe(t, fromHz, toHz, constHz, true, roundUp, roundOff, fast)
    ensures U32(Tmcvt(t, fromHz, toHz, constHz, true, roundUp, roundOff, fast))
         == U32(Exact(Mode(roundUp, roundOff), t * toHz, fromHz))
  {
    OffsetIsBias(fromHz, roundUp, roundOff);
    if DivRatio(fromHz, toHz, constHz) {
      DivIsUnique(fromHz, toHz, fromHz / toHz);
      OffsetIsBias(Quot(fromHz, toHz), roundUp, roundOff);
    }
    ProductFits(t, toHz, Offset(fromHz, roundUp, roundOff));
    TmcvtIsExact(t, fromHz, toHz, constHz, true, roundUp, roundOff, fast);
  }

  /** With both flags set a conversion rounds to nearest. */
  lemma RoundOffWins(t: u64, fromHz: u32, toHz: u32, constHz: bool, result32: bool, fast: bool)
    requires 0 < fromHz && (constHz ==> 0 < toHz)
    ensures Tmcvt(t, fromHz, toHz, constHz, result32, true, true, fast) == Tmcvt(t, fromHz, toHz, constHz, result32, false, true, fast)
  {
    hide DivRatioPath, MulRatioPath, FullPrecisionPath, Quot;
  }

  /** Knowing the frequencies at compile time changes the path taken and never the answer. */
  lemma ConstHzNeverChangesTheAnswer(t: u64, fromHz: u32, toHz: u32, result32: bool, roundUp: bool, roundOff: bool,
                                     fast: bool)
    requires 0 < fromHz && 0 < toHz
    requires forall constHz :: Safe(t, fromHz, toHz, constHz, result32, roundUp, roundOff, fast)
    ensures Narrow(Tmcvt(t, fromHz, toHz, true, result32, roundUp, roundOff, fast), result32)
         == Narrow(Tmcvt(t, fromHz, toHz, false, result32, roundUp, roundOff, fast), result32)
  {
    assert Safe(t, fromHz, toHz, true, result32, roundUp, roundOff, fast);
    assert Safe(t, fromHz, toHz, false, result32, roundUp, roundOff, fast);
    TmcvtIsExact(t, fromHz, toHz, true, result32, roundUp, roundOff, fast);
    TmcvtIsExact(t, fromHz, toHz, false, result32, roundUp, roundOff, fast);
  }

  // ----- exactly when a path fails -------------------------------------------------------------------------------

  /** The down-ratio path, for results of either width, rounds correctly exactly when adding the offset does not wrap; when it
      does wrap the answer is 0. */
  lemma DivRatioExactIff(t: u64, fromHz: u32, toHz: u32, result32: bool, roundUp: bool, roundOff: bool, fast: bool)
    requires 0 < fromHz && 0 < toHz && DivRatio(fromHz, toHz, true)
    ensures var answer := Tmcvt(t, fromHz, toHz, true, result32, roundUp, roundOff, fast);
            var fits := t + Offset(Quot(fromHz, toHz), roundUp, roundOff) < 0x1_0000_0000_0000_0000;
            && (answer == Exact(Mode(roundUp, roundOff), t * toHz, fromHz) <==> fits)
            && (!fits ==> answer == 0)
  {
    hide Exact, Offset, MulRatio, FullPrecisionPath;
    var m, r := Mode(roundUp, roundOff), Quot(fromHz, toHz);
    RatioIsExact(m, t, fromHz, toHz);
    OffsetIsBias(r, roundUp, roundOff);
    DivRatioPathIff(m, t, r, result32);
  }

  lemma DivRatioPathIff(m: Rounding, t: u64, ratio: u32, result32: bool)
    requires 0 < ratio
    ensures DivRatioPath(t, Bias(m, ratio), ratio, result32) == Exact(m, t, ratio)
       <==> t + Bias(m, ratio) < 0x1_0000_0000_0000_0000
    ensures 0x1_0000_0000_0000_0000 <= t + Bias(m, ratio) ==> DivRatioPath(t, Bias(m, ratio), ratio, result32) == 0
  {
    hide Bias, Quot;
    var sum := t + Bias(m, ratio);
    WrappedQuotient(sum, ratio);
    if 0x1_0000_0000_0000_0000 <= sum {
      assert U64(sum) < ratio;
      SmallQuotient(U64(sum), ratio);
    }
  }

  lemma SmallQuotient(a: nat, b: nat)
    requires a < b
    ensures Quot(a, b) == 0
  {
    DivIsUnique(a, b, 0);
  }

  /** The largest 64-bit number of milliseconds, rounded up to tenths of a second, becomes 0. */
  lemma DivRatioFailsAtTheEnd()
    ensures Tmcvt(0xFFFF_FFFF_FFFF_FFFF, 1000, 10, true, false, true, false, false) == 0
         != Exact(Ceil, 0xFFFF_FFFF_FFFF_FFFF * 10, 1000)
  {
  }

  /** Both multiply-first 64-bit forms lose the answer exactly when the multiplication wraps. */
  lemma FastExactIff(t: u64, fromHz: u32, toHz: u32, roundUp: bool, roundOff: bool)
    requires 0 < fromHz && 0 < toHz && fromHz != toHz
    requires !DivRatio(fromHz, toHz, true) && !MulRatio(fromHz, toHz, true)
    ensures Tmcvt(t, fromHz, toHz, true, false, roundUp, roundOff, true) == Exact(Mode(roundUp, roundOff), t * toHz, fromHz)
       <==> t * toHz + Offset(fromHz, roundUp, roundOff) < 0x1_0000_0000_0000_0000
  {
    OffsetIsBias(fromHz, roundUp, roundOff);
    MultiplyFirstExactIff(Mode(roundUp, roundOff), t, fromHz, toHz);
  }

  /** Whatever selects it, the fast form is exact for every time up to `longest` exactly when it is for `longest`. */
  lemma FastExactUpToIff(m: Rounding, longest: u64, fromHz: u32, toHz: u32)
    requires 0 < fromHz
    ensures (forall t: u64 :: t <= longest ==> MultiplyFirst(t, fromHz, toHz, Bias(m, fromHz)) == Exact(m, t * toHz, fromHz))
       <==> longest * toHz + Bias(m, fromHz) < 0x1_0000_0000_0000_0000
  {
    hide MultiplyFirst; hide Exact; hide Bias;
    MultiplyFirstExactIff(m, longest, fromHz, toHz);
    if longest * toHz + Bias(m, fromHz) < 0x1_0000_0000_0000_0000 {
      forall t: u64 | t <= longest ensures MultiplyFirst(t, fromHz, toHz, Bias(m, fromHz)) == Exact(m, t * toHz, fromHz) {
        MulMonotone(t, longest, toHz);
        MultiplyFirstExactIff(m, t, fromHz, toHz);
      }
    }
  }

  // ----- the fast-path guard -------------------------------------------------------------------------------------

  /** The guard's own arithmetic does not wrap. */
  predicate GuardFits(fromHz: u32, maxDays: u64) {
    maxDays * 24 * 3600 * fromHz + 0xFFFF_FFFE < 0x1_0000_0000_0000_0000
  }

  lemma GuardComputesCeiling(longest: u64, toHz: u32)
    requires longest + 0xFFFF_FFFE < 0x1_0000_0000_0000_0000
    ensures FastAlgoFor(longest, toHz) <==> Exact(Ceil, longest, 0xFFFF_FFFF) * toHz <= 0xFFFF_FFFF
  {
    DivMonotone(longest + 0xFFFF_FFFE, 0x1_0000_0001 * 0xFFFF_FFFF, 0xFFFF_FFFF);
    assert Exact(Ceil, longest, 0xFFFF_FFFF) == Quot(U64(longest + (0xFFFF_FFFF - 1)), 0xFFFF_FFFF);
    ScaledFits(Exact(Ceil, longest, 0xFFFF_FFFF), toHz);
  }

  lemma ScaledFits(scaled: nat, toHz: u32)
    requires scaled <= 0x1_0000_0001
    ensures ScaledAlgoFor(scaled, toHz) <==> scaled * toHz <= 0xFFFF_FFFF
  {
    MulMonotone(scaled, 0x1_0000_0001, toHz);
    assert 0x1_0000_0001 * toHz <= 0xFFFF_FFFF_FFFF_FFFF;
    NoWrap64(scaled * toHz);
  }

  lemma GuardBoundsProduct(t: nat, longest: u64, toHz: u32)
    requires t <= longest && longest + 0xFFFF_FFFE < 0x1_0000_0000_0000_0000 && FastAlgoFor(longest, toHz)
    ensures t * toHz <= 0xFFFF_FFFF * 0xFFFF_FFFF
  {
    var scaled := Exact(Ceil, longest, 0xFFFF_FFFF);
    GuardComputesCeiling(longest, toHz);
    MulMonotone(t, scaled * 0xFFFF_FFFF, toHz);
    assert (scaled * 0xFFFF_FFFF) * toHz == (scaled * toHz) * 0xFFFF_FFFF;
  }

  lemma GuardArithmetic(fromHz: u32, maxDays: u64)
    requires 0 < fromHz && GuardFits(fromHz, maxDays)
    ensures U64(U64(U64(maxDays * 24) * 3600) * fromHz) == maxDays * 24 * 3600 * fromHz
  {
    hide U64;
    MulMonotone(1, fromHz, maxDays * 24 * 3600);
    NoWrap64(maxDays * 24);
    NoWrap64(maxDays * 24 * 3600);
    NoWrap64(maxDays * 24 * 3600 * fromHz);
  }

  /** Unless it wraps, the guard holds exactly when the rounded-up 2^32-1 fraction of the configured maximum, in source units,
      times the target frequency fits 32 bits. */
  lemma GuardIff(fromHz: u32, toHz: u32, maxDays: u64)
    requires 0 < fromHz && GuardFits(fromHz, maxDays)
    ensures UseFastAlgo(fromHz, toHz, maxDays) <==> Exact(Ceil, maxDays * 24 * 3600 * fromHz, 0xFFFF_FFFF) * toHz <= 0xFFFF_FFFF
  {
    hide FastAlgoFor, Exact, U64;
    GuardArithmetic(fromHz, maxDays);
    GuardComputesCeiling(maxDays * 24 * 3600 * fromHz, toHz);
  }

  /** Whenever the guard holds, every time up to the configured maximum takes the fast path without overflow, and the
      fast form gives what the divide-first form gives. */
  lemma GuardIsSound(t: u64, fromHz: u32, toHz: u32, roundUp: bool, roundOff: bool, maxDays: u64)
    requires 0 < fromHz && 0 < toHz && GuardFits(fromHz, maxDays) && UseFastAlgo(fromHz, toHz, maxDays)
    requires t <= maxDays * 24 * 3600 * fromHz
    ensures t * toHz + Offset(fromHz, roundUp, roundOff) < 0x1_0000_0000_0000_0000
    ensures MultiplyFirst(t, fromHz, toHz, Offset(fromHz, roundUp, roundOff))
         == DivideFirst(t, fromHz, toHz, Offset(fromHz, roundUp, roundOff))
         == Exact(Mode(roundUp, roundOff), t * toHz, fromHz)
  {
    hide Quot, FastAlgoFor, MultiplyFirst, DivideFirst, Exact, Offset, U64;
    var m := Mode(roundUp, roundOff);
    OffsetIsBias(fromHz, roundUp, roundOff);
    GuardArithmetic(fromHz, maxDays);
    GuardBoundsProduct(t, maxDays * 24 * 3600 * fromHz, toHz);
    MultiplyFirstExactIff(m, t, fromHz, toHz);
    DivideFirstIsExact(m, t, fromHz, toHz);
    NoWrap64(Exact(m, t * toHz, fromHz));
  }

  /** The longest 64-bit time up to the configured maximum. */
  function Longest(fromHz: u32, maxDays: u64): u64 {
    var longest := maxDays * 24 * 3600 * fromHz;
    if longest < 0x1_0000_0000_0000_0000 then longest else 0xFFFF_FFFF_FFFF_FFFF
  }

  /** However the guard came to hold, wrapping or not, the conversions it sends down the fast path are exact for every time up
      to the configured maximum exactly when the fast form does not overflow at that maximum. */
  lemma GuardedConversionsExactIff(fromHz: u32, toHz: u32, roundUp: bool, roundOff: bool, maxDays: u64)
    requires 0 < fromHz && 0 < toHz && fromHz != toHz && UseFastAlgo(fromHz, toHz, maxDays)
    requires !DivRatio(fromHz, toHz, true) && !MulRatio(fromHz, toHz, true)
    ensures (forall t: u64 :: t <= Longest(fromHz, maxDays) ==>
               Tmcvt(t, fromHz, toHz, true, false, roundUp, roundOff, UseFastAlgo(fromHz, toHz, maxDays))
               == Exact(Mode(roundUp, roundOff), t * toHz, fromHz))
       <==> Longest(fromHz, maxDays) * toHz + Offset(fromHz, roundUp, roundOff) < 0x1_0000_0000_0000_0000
  {
    hide MultiplyFirst, DivideFirst, Exact, UseFastAlgo, Longest, Offset, DivRatioPath, MulRatioPath;
    OffsetIsBias(fromHz, roundUp, roundOff);
    FastExactUpToIff(Mode(roundUp, roundOff), Longest(fromHz, maxDays), fromHz, toHz);
    forall t: u64 ensures Tmcvt(t, fromHz, toHz, true, false, roundUp, roundOff, true)
                       == MultiplyFirst(t, fromHz, toHz, Offset(fromHz, roundUp, roundOff)) {}
  }

  /** For any maximum of up to 49710 days the guard's own arithmetic is safe. */
  lemma GuardFitsUsualSettings(fromHz: u32, maxDays: u64)
    requires maxDays <= 49710
    ensures GuardFits(fromHz, maxDays)
  {
    MulMonotone(maxDays * 24 * 3600, 49710 * 24 * 3600, fromHz);
    MulMonotone(fromHz, 0xFFFF_FFFF, 49710 * 24 * 3600);
  }

  /** Beyond that it can wrap to zero, select the fast path and lose an in-range time. */
  lemma GuardUnsoundWhenItWraps()
    ensures var maxDays, fromHz, toHz, t := 0x4000_0000, 0x0800_0000, 0xFFFF_FFFF, 0x1_0000_0001_0000;
            && !GuardFits(fromHz, maxDays) && UseFastAlgo(fromHz, toHz, maxDays)
            && t <= maxDays * 24 * 3600 * fromHz
            && Tmcvt(t, fromHz, toHz, true, false, false, false, true)
               != Tmcvt(t, fromHz, toHz, false, false, false, false, true)
  {
  }

  // ----- conversions there and back ------------------------------------------------------------------------------

  lemma ExactMonotone(m: Rounding, a: nat, b: nat, den: nat)
    requires 0 < den && a <= b
    ensures Exact(m, a, den) <= Exact(m, b, den)
  {
    DivMonotone(a + Bias(m, den), b + Bias(m, den), den);
  }

  /** The three roundings are ordered and differ by at most one. */
  lemma RoundingsOrdered(num: nat, den: nat)
    requires 0 < den
    ensures Exact(Floor, num, den) <= Exact(Near, num, den) <= Exact(Ceil, num, den) <= Exact(Floor, num, den) + 1
  {
    DivMonotone(num, num + den / 2, den);
    DivMonotone(num + den / 2, num + (den - 1), den);
    DivMonotone(num + (den - 1), num + 1 * den, den);
    DivShift(num, 1, den);
  }

  /** Converting up and back down never shortens a time; down and back up never lengthens it. */
  lemma ExactGalois(t: nat, fromHz: nat, toHz: nat)
    requires 0 < fromHz && 0 < toHz
    ensures t <= Exact(Floor, Exact(Ceil, t * toHz, fromHz) * fromHz, toHz)
    ensures Exact(Ceil, Exact(Floor, t * toHz, fromHz) * fromHz, toHz) <= t
  {
    var up, down := Exact(Ceil, t * toHz, fromHz), Exact(Floor, t * toHz, fromHz);
    ExactRounds(Ceil, t * toHz, fromHz, up);
    ExactRounds(Floor, t * toHz, fromHz, down);
    ExactMonotone(Floor, t * toHz, up * fromHz, toHz);
    ExactMonotone(Ceil, down * fromHz, t * toHz, toHz);
    ExactOfMultiple(Floor, t, toHz);
    ExactOfMultiple(Ceil, t, toHz);
  }

  /** A 64-bit conversion of the API: its arguments are such that the result fits and no path wraps. */
  ghost predicate Fits(m: Rounding, t: u64, fromHz: u32, toHz: u32, constHz: bool, fast: bool)
    requires 0 < fromHz && 0 < toHz
  {
    && Safe(t, fromHz, toHz, constHz, false, m == Ceil, m == Near, fast)
    && Exact(m, t * toHz, fromHz) < 0x1_0000_0000_0000_0000
  }

  function Convert64(m: Rounding, t: u64, fromHz: u32, toHz: u32, constHz: bool, fast: bool): u64
    requires 0 < fromHz && 0 < toHz
  {
    Tmcvt(t, fromHz, toHz, constHz, false, m == Ceil, m == Near, fast)
  }

  lemma Convert64IsExact(m: Rounding, t: u64, fromHz: u32, toHz: u32, constHz: bool, fast: bool)
    requires 0 < fromHz && 0 < toHz && Fits(m, t, fromHz, toHz, constHz, fast)
    ensures Convert64(m, t, fromHz, toHz, constHz, fast) == Exact(m, t * toHz, fromHz)
  {
    hide Quot; hide Tmcvt;
    assert Mode(m == Ceil, m == Near) == m;
    TmcvtIsExact(t, fromHz, toHz, constHz, false, m == Ceil, m == Near, fast);
    NoWrap64(Exact(m, t * toHz, fromHz));
  }

  /** `k_*_to_*_ceil64` then the reverse `floor64` never shortens a timeout, whichever path each of the two calls runs on. */
  lemma TimeoutsNeverShorten(t: u64, fromHz: u32, toHz: u32, constHz: bool, fast: bool, constBack: bool, fastBack: bool)
    requires 0 < fromHz && 0 < toHz && Fits(Ceil, t, fromHz, toHz, constHz, fast)
    requires Fits(Floor, Convert64(Ceil, t, fromHz, toHz, constHz, fast), toHz, fromHz, constBack, fastBack)
    ensures t <= Convert64(Floor, Convert64(Ceil, t, fromHz, toHz, constHz, fast), toHz, fromHz, constBack, fastBack)
  {
    hide Convert64, Fits, Exact;
    Convert64IsExact(Ceil, t, fromHz, toHz, constHz, fast);
    Convert64IsExact(Floor, Convert64(Ceil, t, fromHz, toHz, constHz, fast), toHz, fromHz, constBack, fastBack);
    ExactGalois(t, fromHz, toHz);
  }

  /** `floor64` then the reverse `ceil64` never lengthens a time, whichever path each of the two calls runs on. */
  lemma FloorsNeverLengthen(t: u64, fromHz: u32, toHz: u32, constHz: bool, fast: bool, constBack: bool, fastBack: bool)
    requires 0 < fromHz && 0 < toHz && Fits(Floor, t, fromHz, toHz, constHz, fast)
    requires Fits(Ceil, Convert64(Floor, t, fromHz, toHz, constHz, fast), toHz, fromHz, constBack, fastBack)
    ensures Convert64(Ceil, Convert64(Floor, t, fromHz, toHz, constHz, fast), toHz, fromHz, constBack, fastBack) <= t
  {
    hide Convert64, Fits, Exact;
    Convert64IsExact(Floor, t, fromHz, toHz, constHz, fast);
    Convert64IsExact(Ceil, Convert64(Floor, t, fromHz, toHz, constHz, fast), toHz, fromHz, constBack, fastBack);
    ExactGalois(t, fromHz, toHz);
  }

  lemma ConversionsMonotone(m: Rounding, s: u64, t: u64, fromHz: u32, toHz: u32, constHz: bool, fast: bool)
    requires 0 < fromHz && 0 < toHz && s <= t
    requires Fits(m, s, fromHz, toHz, constHz, fast) && Fits(m, t, fromHz, toHz, constHz, fast)
    ensures Convert64(m, s, fromHz, toHz, constHz, fast) <= Convert64(m, t, fromHz, toHz, constHz, fast)
  {
    MulMonotone(s, t, toHz);
    ExactMonotone(m, s * toHz, t * toHz, fromHz);
    Convert64IsExact(m, s, fromHz, toHz, constHz, fast);
    Convert64IsExact(m, t, fromHz, toHz, constHz, fast);
  }

  /** The three roundings of one time are ordered and at most one unit apart. */
  lemma ConversionsOrdered(t: u64, fromHz: u32, toHz: u32, constHz: bool, fast: bool)
    requires 0 < fromHz && 0 < toHz
    requires forall m :: Fits(m, t, fromHz, toHz, constHz, fast)
    ensures Convert64(Floor, t, fromHz, toHz, constHz, fast) <= Convert64(Near, t, fromHz, toHz, constHz, fast)
         <= Convert64(Ceil, t, fromHz, toHz, constHz, fast) <= Convert64(Floor, t, fromHz, toHz, constHz, fast) + 1
  {
    RoundingsOrdered(t * toHz, fromHz);
    Convert64IsExact(Floor, t, fromHz, toHz, constHz, fast);
    Convert64IsExact(Near, t, fromHz, toHz, constHz, fast);
    Convert64IsExact(Ceil, t, fromHz, toHz, constHz, fast);
  }
}
