/** The tick driver of drivers/timer/sys_timer.c over an up-counting 64-bit counter.  The class is the driver; the
    functions above it are the driver's integer arithmetic, wrap-arounds included; the lemmas below say what the arithmetic
    amounts to over a whole run. */
module SysTimer {
  import opened MachineInts

  const MAX_CYC: int := 0x7FFF_FFFF
  const MIN_DELAY: int := 1000
  const TICKS_FOREVER: int := -1

  /** Hardware cycles per tick: the quotient of two positive `int` settings. */
  type Cycles = c: int | 0 < c <= 0x7FFF_FFFF witness 1

  // ----- the code ------------------------------------------------------------------------------------------------

  /** The signed tick count the interrupt computes. */
  function DueTicks(c: Cycles, last: u64, now: u64): i32 {
    I32(U64(now - last) / c)
  }

  /** `last_count` after the interrupt: the product is taken in 32 unsigned bits and then widened. */
  function CountAfter(c: Cycles, last: u64, now: u64): u64 {
    U64(last + U32(U32(DueTicks(c, last, now)) * c))
  }

  /** The alarm of a periodic (not tickless) kernel, set from the interrupt. */
  function PeriodicAlarm(c: Cycles, last: u64, now: u64): u64 {
    var next := U64(last + c);
    if U64(next - now) < MIN_DELAY then U64(next + c) else next
  }

  function MaxTicks(c: Cycles): i32 { (MAX_CYC - c) / c }

  /** The request after `K_TICKS_FOREVER` is replaced and the rest is clamped. */
  function ClampedTicks(c: Cycles, ticks: i32): i32
    requires ticks > -0x8000_0000
  {
    var t := if ticks == TICKS_FOREVER then MaxTicks(c) else ticks;
    if t - 1 <= 0 then 0 else if t - 1 < MaxTicks(c) then t - 1 else MaxTicks(c)
  }

  /** The last multiple of `c` up to `x`. */
  function FloorTo(c: Cycles, x: int): int { (x / c) * c }

  /** Rounding up to a tick boundary, in 32 unsigned bits. */
  function AlarmCycles(c: Cycles, elapsed: u64, k: i32): u32 {
    U32(FloorTo(c, SaturatedSum(U32(k * c), U32(U32(elapsed) + (c - 1)))))
  }

  function SaturatedSum(cyc: u32, adj: u32): u32 {
    if cyc <= U32(MAX_CYC - adj) then U32(cyc + adj) else MAX_CYC
  }

  function TicklessAlarm(c: Cycles, last: u64, now: u64, ticks: i32): u64
    requires ticks > -0x8000_0000
  {
    var cyc := AlarmCycles(c, U64(now - last), ClampedTicks(c, ticks));
    var delayed := if I32(U64(cyc + last - now)) < MIN_DELAY then U32(cyc + c) else cyc;
    U64(delayed + last)
  }

  function ElapsedTicks(c: Cycles, last: u64, now: u64): u32 {
    U32(U32(now) - U32(last)) / c
  }

  class SysTimerDriver {
    const cycPerTick: Cycles
    const tickless: bool
    var lastCount: u64
    var alarm: u64

    /** `sys_clock_driver_init`, reading the counter as `now`. */
    constructor (cycPerTick: Cycles, tickless: bool, now: u64)
      ensures this.cycPerTick == cycPerTick && this.tickless == tickless
      ensures lastCount == now && alarm == U64(now + cycPerTick)
    {
      this.cycPerTick := cycPerTick;
      this.tickless := tickless;
      lastCount := now;
      alarm := U64(now + cycPerTick);
    }

    /** `SysTick_Handler`; the result is what is passed to `sys_clock_announce`. */
    method SysTickHandler(now: u64) returns (announced: i32)
      modifies this
      ensures lastCount == CountAfter(cycPerTick, old(lastCount), now)
      ensures announced == if tickless then DueTicks(cycPerTick, old(lastCount), now) else 1
      ensures alarm == if tickless then old(alarm) else PeriodicAlarm(cycPerTick, lastCount, now)
    {
      var dticks: i32 := I32(U64(now - lastCount) / cycPerTick);
      lastCount := U64(lastCount + U32(U32(dticks) * cycPerTick));
      if !tickless {
        var next := U64(lastCount + cycPerTick);
        if U64(next - now) < MIN_DELAY {
          next := U64(next + cycPerTick);
        }
        alarm := next;
      }
      announced := if tickless then dticks else 1;
    }

    /** `sys_clock_set_timeout`. */
    method SetTimeout(ticks: i32, now: u64)
      requires ticks > -0x8000_0000
      modifies this`alarm
      ensures alarm == if tickless then TicklessAlarm(cycPerTick, lastCount, now, ticks) else old(alarm)
    {
      hide FloorTo; hide MaxTicks; hide U32; hide U64; hide I32;
      if tickless {
        var t: i32 := if ticks == TICKS_FOREVER then MaxTicks(cycPerTick) else ticks;
        t := if t - 1 <= 0 then 0 else if t - 1 < MaxTicks(cycPerTick) then t - 1 else MaxTicks(cycPerTick);
        var cyc: u32 := U32(t * cycPerTick);
        var adj: u32 := U32(U32(U64(now - lastCount)) + (cycPerTick - 1));
        if cyc <= U32(MAX_CYC - adj) {
          cyc := U32(cyc + adj);
        } else {
          cyc := MAX_CYC;
        }
        cyc := U32(FloorTo(cycPerTick, cyc));
        if I32(U64(cyc + lastCount - now)) < MIN_DELAY {
          cyc := U32(cyc + cycPerTick);
        }
        alarm := U64(cyc + lastCount);
      }
    }

    /** `sys_clock_elapsed`. */
    method Elapsed(now: u64) returns (ticks: u32)
      ensures ticks == if tickless then ElapsedTicks(cycPerTick, lastCount, now) else 0
    {
      if !tickless {
        return 0;
      }
      ticks := U32(U32(now) - U32(lastCount)) / cycPerTick;
    }
  }

  // ----- conservation of ticks -----------------------------------------------------------------------------------

  /** The interrupt accounts for every whole tick since `last_count` exactly when the ticks fit the signed and the cycles
      the unsigned 32-bit intermediate. */
  lemma InterruptExactIff(c: Cycles, last: u64, now: u64)
    requires last <= now
    ensures DueTicks(c, last, now) == (now - last) / c && CountAfter(c, last, now) == last + FloorTo(c, now - last)
       <==> (now - last) / c < 0x8000_0000 && FloorTo(c, now - last) < 0x1_0000_0000
  {
    hide FloorTo; hide I32; hide U32; hide U64;
    var due := (now - last) / c;
    NoWrap64(now - last);
    SignedIff(due);
    FloorToBounds(c, now - last);
    WidenedSum(last, FloorTo(c, now - last), now);
  }

  lemma SignedIff(q: nat)
    ensures I32(q) == q <==> q < 0x8000_0000
    ensures q < 0x8000_0000 ==> U32(q) == q
  {
  }

  lemma FloorToBounds(c: Cycles, x: int)
    ensures FloorTo(c, x) == (x / c) * c <= x < FloorTo(c, x) + c
    ensures 0 <= x ==> 0 <= x / c && 0 <= FloorTo(c, x)
  {
    DivBounds(x, c);
  }

  lemma WidenedSum(last: u64, p: nat, now: u64)
    requires last + p <= now
    ensures U64(last + U32(p)) == last + p <==> p < 0x1_0000_0000
  {
  }

  /** The elapsed-ticks query is exact exactly within 2^32 cycles of `last_count`. */
  lemma ElapsedExactIff(c: Cycles, last: u64, now: u64)
    requires last <= now
    ensures ElapsedTicks(c, last, now) == (now - last) / c <==> now - last < 0x1_0000_0000
  {
    hide U32;
    WrapDifference32(now, last);
    WrappedGapIff(c, now - last);
  }

  lemma WrappedGapIff(c: Cycles, gap: nat)
    ensures U32(gap) / c == gap / c <==> gap < 0x1_0000_0000
  {
    if 0x1_0000_0000 <= gap {
      DivShift(U32(gap), 1, c);
      DivMonotone(U32(gap) + 1 * c, gap, c);
    }
  }

  /** Beyond those bounds too, for any two counter values: with `q` the whole ticks between them, what the two truncations of
      the interrupt and the one of the query leave. */
  lemma TruncatedTicks(c: Cycles, last: u64, now: u64, q: int)
    ensures q * c <= U64(now - last) < q * c + c ==> DueTicks(c, last, now) == I32(q) && CountAfter(c, last, now) == U64(last + U32(q * c))
    ensures q * c <= U32(now - last) < q * c + c ==> ElapsedTicks(c, last, now) == q
  {
    hide U32; hide U64; hide I32;
    DivIsUnique(U64(now - last), c, q);
    DivIsUnique(U32(now - last), c, q);
    Distribute(q, 1, c);
    WrapDifference32(now, last);
    SignedProduct(q, c);
  }

  lemma SignedProduct(q: int, c: int)
    ensures U32(U32(I32(q)) * c) == U32(q * c)
  {
    assert U32(I32(q)) == U32(q);
    WrapProduct32(q, c);
  }

  /** The requests a caller may make: above INT_MIN. */
  type Ticks = t: int | -0x8000_0000 < t < 0x8000_0000

  datatype Event =
    | Interrupt(now: u64)
    | SetTimeout(now: u64, ticks: Ticks)
    | Query(now: u64)

  /** What a run of the tickless driver has led to: its word and alarm, the time of the latest interrupt and event, and the
      ticks announced. */
  datatype History = History(last: u64, alarm: u64, irq: u64, clock: u64, announced: int)

  function After(c: Cycles, start: u64, run: seq<Event>): History {
    if run == [] then
      History(start, U64(start + c), start, start, 0)
    else
      var h := After(c, start, run[..|run| - 1]);
      match run[|run| - 1]
      case Interrupt(now) =>
        History(CountAfter(c, h.last, now), h.alarm, now, now, h.announced + DueTicks(c, h.last, now))
      case SetTimeout(now, ticks) => h.(clock := now, alarm := TicklessAlarm(c, h.last, now, ticks))
      case Query(now) => h.(clock := now)
  }

  /** What an interrupt this long after the last boundary can count. */
  predicate Countable(c: Cycles, gap: int) { gap / c < 0x8000_0000 && gap < 0x1_0000_0000 }

  /** The counter never goes back and every interrupt comes while the ticks since the last boundary can be counted. */
  predicate Timely(c: Cycles, start: u64, run: seq<Event>) {
    run != [] ==>
      && Timely(c, start, run[..|run| - 1])
      && var h := After(c, start, run[..|run| - 1]);
         var now := run[|run| - 1].now;
         h.clock <= now && (run[|run| - 1].Interrupt? ==> Countable(c, now - h.last))
  }

  /** The counter never goes back and no event is 2^31 cycles or more after the latest interrupt. */
  predicate Prompt(c: Cycles, start: u64, run: seq<Event>) {
    run != [] ==>
      && Prompt(c, start, run[..|run| - 1])
      && var h := After(c, start, run[..|run| - 1]);
         h.clock <= run[|run| - 1].now < h.irq + 0x8000_0000
  }

  /** What every event keeps: the word is the boundary of the last announced tick, less than a tick before the latest
      interrupt. */
  ghost predicate Consistent(c: Cycles, start: u64, h: History) {
    && h.announced >= 0
    && h.last == start + h.announced * c
    && h.last <= h.irq <= h.clock
    && h.irq < h.last + c
  }

  lemma {:induction false} EveryRunConsistent(c: Cycles, start: u64, run: seq<Event>)
    requires Timely(c, start, run)
    ensures Consistent(c, start, After(c, start, run))
  {
    hide TicklessAlarm;
    if run != [] {
      EveryRunConsistent(c, start, run[..|run| - 1]);
      var h := After(c, start, run[..|run| - 1]);
      var now := run[|run| - 1].now;
      if run[|run| - 1].Interrupt? {
        InterruptKeepsConsistent(c, start, h, now);
      }
    }
  }

  lemma InterruptKeepsConsistent(c: Cycles, start: u64, h: History, now: u64)
    requires Consistent(c, start, h) && h.clock <= now && Countable(c, now - h.last)
    ensures Consistent(c, start, History(CountAfter(c, h.last, now), h.alarm, now, now, h.announced + DueTicks(c, h.last, now)))
    ensures h.last <= CountAfter(c, h.last, now)
  {
    hide FloorTo; hide DueTicks; hide CountAfter;
    var due := (now - h.last) / c;
    FloorToBounds(c, now - h.last);
    InterruptExactIff(c, h.last, now);
    Distribute(h.announced, due, c);
  }

  /** A gap of less than 2^31 cycles and one tick can always be counted. */
  lemma GapFits(c: Cycles, gap: nat)
    requires gap < 0x8000_0000 + c - 1 || gap < 0x8000_0000
    ensures Countable(c, gap) && FloorTo(c, gap) < 0x1_0000_0000
  {
    var due := gap / c;
    DivBounds(gap, c);
    if c >= 2 && 0x8000_0000 <= due {
      MulMonotone(0x8000_0000, due, c);
    }
  }

  /** Interrupt gaps below 2^31 cycles are enough. */
  lemma {:induction false} PromptIsTimely(c: Cycles, start: u64, run: seq<Event>)
    requires Prompt(c, start, run)
    ensures Timely(c, start, run)
  {
    if run != [] {
      var earlier := run[..|run| - 1];
      PromptIsTimely(c, start, earlier);
      EveryRunConsistent(c, start, earlier);
      GapFits(c, run[|run| - 1].now - After(c, start, earlier).last);
    }
  }

  /** After any timely run of interrupts, alarm settings and queries, the ticks announced and the ticks still pending add up
      to the whole ticks since start-up, none lost or counted twice, exactly while the last boundary is less than 2^32 cycles
      ago. */
  lemma TicksConservedIff(c: Cycles, start: u64, run: seq<Event>, now: u64)
    requires Timely(c, start, run) && After(c, start, run).clock <= now
    ensures var h := After(c, start, run);
            h.announced + ElapsedTicks(c, h.last, now) == (now - start) / c <==> now - h.last < 0x1_0000_0000
  {
    EveryRunConsistent(c, start, run);
    var h := After(c, start, run);
    ElapsedExactIff(c, h.last, now);
    DivShift(now - h.last, h.announced, c);
  }

  /** So over every run with interrupt gaps below 2^31 cycles, ticks are conserved. */
  lemma TicksConserved(c: Cycles, start: u64, run: seq<Event>, now: u64)
    requires Prompt(c, start, run + [Query(now)])
    ensures var h := After(c, start, run);
            h.announced + ElapsedTicks(c, h.last, now) == (now - start) / c
  {
    assert (run + [Query(now)])[..|run|] == run;
    PromptIsTimely(c, start, run);
    EveryRunConsistent(c, start, run);
    TicksConservedIff(c, start, run, now);
  }

  // ----- the tickless alarm --------------------------------------------------------------------------------------

  /** The first multiple of `c` at or after `x`. */
  function BoundaryAt(c: Cycles, x: int): int { FloorTo(c, x + (c - 1)) }

  lemma BoundaryAtIsLeast(c: Cycles, x: int)
    ensures x <= BoundaryAt(c, x) < x + c && BoundaryAt(c, x) % c == 0
    ensures forall m: int :: x <= m * c ==> BoundaryAt(c, x) <= m * c
  {
    var q := (x + (c - 1)) / c;
    DivBounds(x + (c - 1), c);
    MultipleHasNoRemainder(q, c);
    forall m: int | x <= m * c ensures q * c <= m * c {
      if m < q { MulMonotone(m + 1, q, c); }
    }
  }

  lemma ClampedFits(c: Cycles, ticks: i32)
    requires ticks > -0x8000_0000
    ensures 0 <= ClampedTicks(c, ticks) && 0 <= ClampedTicks(c, ticks) * c <= MAX_CYC - c
  {
    assert 0 <= ClampedTicks(c, ticks) <= MaxTicks(c) by {
      DivMonotone(0, MAX_CYC - c, c);
    }
    hide ClampedTicks;
    DivBounds(MAX_CYC - c, c);
    MulMonotone(ClampedTicks(c, ticks), MaxTicks(c), c);
    MulMonotone(0, ClampedTicks(c, ticks), c);
  }

  /** Cycles from `last_count` to the boundary the request asks for, saturated at the largest positive `int`. */
  function Target(c: Cycles, elapsed: nat, k: int): int {
    if elapsed + c - 1 <= MAX_CYC < k * c + elapsed + c - 1 then FloorTo(c, MAX_CYC) else BoundaryAt(c, elapsed + k * c)
  }

  /** A target closer than the minimum delay is put off by one tick. */
  function PutOff(c: Cycles, elapsed: nat, target: int): int {
    if target - elapsed < MIN_DELAY then target + c else target
  }

  /** No 32-bit sum of the alarm computation wraps: a caller can test this before the call. */
  predicate AlarmFits(c: Cycles, elapsed: nat, k: int) {
    && k * c + elapsed + c - 1 < 0x1_0000_0000
    && PutOff(c, elapsed, Target(c, elapsed, k)) < 0x1_0000_0000
  }

  /** Away from the end of 64-bit time, where `cyc + last_count` could wrap. */
  predicate FarFromOverflow(last: u64, now: u64) {
    last <= now && now + 0x2_0000_0000 <= 0x1_0000_0000_0000_0000
  }

  /** The minimum-delay test sees the true distance to the alarm. */
  lemma DelayedAlarm(c: Cycles, last: u64, now: u64, ticks: i32, cyc: u32)
    requires ticks > -0x8000_0000 && FarFromOverflow(last, now)
    requires cyc == AlarmCycles(c, now - last, ClampedTicks(c, ticks))
    requires now - last <= cyc < now - last + 0x8000_0000
    ensures TicklessAlarm(c, last, now, ticks)
         == last + if cyc - (now - last) < MIN_DELAY then U32(cyc + c) else cyc
  {
    hide AlarmCycles; hide ClampedTicks;
    NoWrap64(now - last);
    assert I32(U64(cyc + last - now)) == cyc - (now - last);
  }

  /** Whatever the minimum-delay test sees, the alarm is the boundary or one tick more. */
  lemma AlarmAtMostOneMore(c: Cycles, last: u64, now: u64, ticks: i32, cyc: u32)
    requires ticks > -0x8000_0000 && FarFromOverflow(last, now)
    requires cyc == AlarmCycles(c, now - last, ClampedTicks(c, ticks))
    ensures TicklessAlarm(c, last, now, ticks) in {last + cyc, last + U32(cyc + c)}
  {
    hide AlarmCycles; hide ClampedTicks;
    NoWrap64(now - last);
    NoWrap64(cyc + last);
    NoWrap64(U32(cyc + c) + last);
  }

  /** Within 2^32 cycles of `last_count`, and where the sum fits, the 32-bit rounding computes the target. */
  lemma RoundingIsExact(c: Cycles, elapsed: nat, k: i32)
    requires 0 <= k * c <= MAX_CYC - c && k * c + elapsed + c - 1 < 0x1_0000_0000
    ensures AlarmCycles(c, elapsed, k) == Target(c, elapsed, k)
    ensures elapsed <= Target(c, elapsed, k) < elapsed + k * c + c
  {
    hide FloorTo; hide U32;
    var p := k * c;
    NoWrap32(p);
    NoWrap32(elapsed);
    NoWrap32(elapsed + (c - 1));
    if elapsed + c - 1 <= MAX_CYC {
      NoWrap32(MAX_CYC - (elapsed + c - 1));
    } else {
      assert U32(MAX_CYC - (elapsed + c - 1)) == 0x1_0000_0000 + MAX_CYC - (elapsed + c - 1) by { NegativeWraps32(MAX_CYC - (elapsed + c - 1)); }
    }
    NoWrap32(p + elapsed + (c - 1));
    FloorToBounds(c, p + elapsed + (c - 1));
    FloorToBounds(c, MAX_CYC);
    NoWrap32(FloorTo(c, p + elapsed + (c - 1)));
    NoWrap32(FloorTo(c, MAX_CYC));
    assert elapsed + k * c + (c - 1) == p + elapsed + (c - 1);
  }

  lemma NegativeWraps32(x: int)
    requires -0x1_0000_0000 <= x < 0
    ensures U32(x) == x + 0x1_0000_0000
  {
  }

  /** In tickless mode, for any request made less than about 2^31 cycles after `last_count`, the alarm lies on a tick
      boundary, not before now and at least the minimum delay ahead if a tick is that long.  Unless saturated it is the
      first boundary at or after `now` plus the clamped ticks, or the next one if that one is closer than the minimum. */
  lemma AlarmMeetsRequest(c: Cycles, last: u64, now: u64, ticks: i32)
    requires ticks > -0x8000_0000 && FarFromOverflow(last, now) && now - last + c - 1 <= MAX_CYC
    ensures var (alarm, k) := (TicklessAlarm(c, last, now, ticks), ClampedTicks(c, ticks));
            && now <= alarm && (alarm - last) % c == 0
            && (now + c <= alarm || now + MIN_DELAY <= alarm)
            && if k * c + (now - last) + c - 1 <= MAX_CYC then
                 var first := last + BoundaryAt(c, now - last + k * c);
                 && now + k * c <= first && (first - last) % c == 0
                 && (forall m: int :: now + k * c <= last + m * c ==> first <= last + m * c)
                 && alarm == if first - now < MIN_DELAY then first + c else first
               else
                 var top := last + FloorTo(c, MAX_CYC);
                 && last + MAX_CYC - c < top <= last + MAX_CYC
                 && alarm == if top - now < MIN_DELAY then top + c else top
  {
    hide FloorTo; hide ClampedTicks; hide AlarmCycles; hide TicklessAlarm; hide U32;
    var e, k := now - last, ClampedTicks(c, ticks);
    ClampedFits(c, ticks);
    RoundingIsExact(c, e, k);
    var cyc := Target(c, e, k);
    DelayedAlarm(c, last, now, ticks, cyc);
    NoWrap32(cyc + c);
    BoundaryAtIsLeast(c, e + k * c);
    FloorToBounds(c, MAX_CYC);
    MultipleHasNoRemainder(MAX_CYC / c, c);
    NextMultiple(c, cyc);
  }

  lemma NextMultiple(c: Cycles, x: nat)
    requires x % c == 0
    ensures (x + c) % c == 0
  {
    MultipleHasNoRemainder(x / c + 1, c);
    assert x + c == (x / c + 1) * c;
  }

  /** How many ticks a request stands for: none up to 1, one less than asked as long as that leaves a tick's room below
      MAX_CYC, else as many as leave it, and one less again for a request to wait forever. */
  lemma ClampMeans(c: Cycles, ticks: i32, k: int)
    requires ticks > -0x8000_0000
    ensures k == ClampedTicks(c, ticks)
       <==> if ticks == -1 then
              0 <= k && (if k == 0 then 0x7FFF_FFFF < 3 * c else (k + 2) * c <= 0x7FFF_FFFF < (k + 3) * c)
            else if ticks <= 1 then
              k == 0
            else if ticks * c <= 0x7FFF_FFFF then
              k == ticks - 1
            else
              (k + 1) * c <= 0x7FFF_FFFF < (k + 2) * c
  {
    var room := MAX_CYC - c;
    DivIsUnique(room, c, MaxTicks(c));
    DivIsUnique(room, c, ticks - 1);
    DivIsUnique(room, c, k);
    DivIsUnique(room, c, k + 1);
    Distribute(k, 1, c);
    Distribute(k, 2, c);
    Distribute(k, 3, c);
    Distribute(ticks, -1, c);
    RoomIff(c, ticks - 1);
    RoomIff(c, 1);
    RoomIff(c, 2);
  }

  lemma RoomIff(c: Cycles, k: int)
    ensures k <= MaxTicks(c) <==> k * c <= MAX_CYC - c
  {
    DivBounds(MAX_CYC - c, c);
    if k <= MaxTicks(c) {
      MulMonotone(k, MaxTicks(c), c);
    } else {
      MulMonotone(MaxTicks(c) + 1, k, c);
    }
  }

  /** The alarm for a wait of so many cycles: the first tick boundary at or after the end of the wait, or the last one below
      2^31 cycles from `last_count` if the wait reaches further; and one tick more if that is closer than the minimum. */
  ghost predicate AlarmAt(c: Cycles, last: u64, now: u64, wait: int, alarm: int) {
    exists q: int ::
      var first := last + q * c;
      && (if wait + (now - last) + c - 1 <= 0x7FFF_FFFF then now + wait <= first < now + wait + c
          else q * c <= 0x7FFF_FFFF < q * c + c)
      && alarm == if first - now < 1000 then first + c else first
  }

  lemma ClampedAlarm(c: Cycles, last: u64, now: u64, ticks: i32)
    requires ticks > -0x8000_0000 && FarFromOverflow(last, now) && now - last + c - 1 <= MAX_CYC
    ensures AlarmAt(c, last, now, ClampedTicks(c, ticks) * c, TicklessAlarm(c, last, now, ticks))
  {
    hide ClampedTicks, TicklessAlarm;
    var k := ClampedTicks(c, ticks);
    var x := if k * c + (now - last) + c - 1 <= MAX_CYC then now - last + k * c + (c - 1) else MAX_CYC;
    AlarmMeetsRequest(c, last, now, ticks);
    BoundaryAtIsLeast(c, now - last + k * c);
    FloorToBounds(c, x);
    var q := x / c;
    assert last + q * c == last + FloorTo(c, x);
  }

  /** What the driver programs, from the ticks asked for alone. */
  lemma AlarmForTicks(c: Cycles, last: u64, now: u64, ticks: i32)
    requires ticks > -0x8000_0000 && FarFromOverflow(last, now) && now - last + c - 1 <= MAX_CYC
    ensures var alarm := TicklessAlarm(c, last, now, ticks);
            && (ticks <= 1 && ticks != -1 ==> AlarmAt(c, last, now, 0, alarm))
            && (1 <= ticks && ticks * c <= 0x7FFF_FFFF ==> AlarmAt(c, last, now, (ticks - 1) * c, alarm))
            && (1 < ticks && 0x7FFF_FFFF < ticks * c ==>
                  forall k: int :: k * c <= 0x7FFF_FFFF < (k + 1) * c ==> AlarmAt(c, last, now, (k - 1) * c, alarm))
            && (ticks == -1 ==>
                  forall k: int :: k * c <= 0x7FFF_FFFF < (k + 1) * c ==>
                    AlarmAt(c, last, now, (if k <= 2 then 0 else k - 2) * c, alarm))
  {
    hide ClampedTicks, TicklessAlarm, AlarmAt;
    ClampedAlarm(c, last, now, ticks);
    if ticks == -1 {
      forall k: int | k * c <= 0x7FFF_FFFF < (k + 1) * c ensures ClampedTicks(c, ticks) == if k <= 2 then 0 else k - 2 {
        ForeverClamped(c, k);
      }
    } else if ticks <= 1 {
      ClampMeans(c, ticks, 0);
    } else if ticks * c <= 0x7FFF_FFFF {
      ClampMeans(c, ticks, ticks - 1);
    } else {
      forall k: int | k * c <= 0x7FFF_FFFF < (k + 1) * c ensures ClampedTicks(c, ticks) == k - 1 {
        ClampMeans(c, ticks, k - 1);
      }
    }
  }

  lemma ForeverClamped(c: Cycles, k: int)
    requires k * c <= 0x7FFF_FFFF < (k + 1) * c
    ensures ClampedTicks(c, -1) == if k <= 2 then 0 else k - 2
  {
    hide ClampedTicks;
    if k <= 2 { MulMonotone(k + 1, 3, c); }
    ClampMeans(c, -1, if k <= 2 then 0 else k - 2);
  }

  /** For any distance from `last_count` at all, the alarm is programmed in the past exactly when one of the 32-bit sums
      wraps. */
  lemma AlarmInPastIff(c: Cycles, last: u64, now: u64, ticks: i32)
    requires ticks > -0x8000_0000 && FarFromOverflow(last, now)
    ensures TicklessAlarm(c, last, now, ticks) < now <==> !AlarmFits(c, now - last, ClampedTicks(c, ticks))
    ensures AlarmFits(c, now - last, ClampedTicks(c, ticks)) ==>
              TicklessAlarm(c, last, now, ticks) == last + PutOff(c, now - last, Target(c, now - last, ClampedTicks(c, ticks)))
  {
    hide FloorTo; hide ClampedTicks; hide AlarmCycles; hide TicklessAlarm; hide U32;
    var e, k := now - last, ClampedTicks(c, ticks);
    ClampedFits(c, ticks);
    if k * c + e + c - 1 < 0x1_0000_0000 {
      RoundingIsExact(c, e, k);
      var cyc := Target(c, e, k);
      DelayedAlarm(c, last, now, ticks, cyc);
      if cyc + c < 0x1_0000_0000 { NoWrap32(cyc + c); } else { OverflowWraps32(cyc + c); }
    } else {
      var cyc := AlarmCycles(c, U64(e), k);
      NoWrap64(e);
      RoundingFallsShort(c, e, k);
      AlarmAtMostOneMore(c, last, now, ticks, cyc);
    }
  }

  /** It does happen: at 60000 cycles a tick, asked to wait forever some 2^31 cycles after the last boundary. */
  lemma AlarmCanBeInPast()
    ensures TicklessAlarm(60_000, 0, 2_147_600_000, TICKS_FOREVER) < 2_147_600_000
    ensures !AlarmFits(60_000, 2_147_600_000, ClampedTicks(60_000, TICKS_FOREVER))
  {
    hide TicklessAlarm, Target;
    assert ClampedTicks(60_000, TICKS_FOREVER) == 35_789;
    AlarmInPastIff(60_000, 0, 2_147_600_000, TICKS_FOREVER);
  }

  /** The alarm for any counter values at all, wrap-arounds included: `q` is the boundary the 32-bit sum leads to. */
  lemma AlarmForAnyDistance(c: Cycles, last: u64, now: u64, ticks: i32, q: int)
    requires ticks > -0x8000_0000
    requires var sum := ClampedTicks(c, ticks) * c + U32(now - last) + c - 1;
             var kept := if U32(now - last) + c - 1 <= 0x7FFF_FFFF < sum then 0x7FFF_FFFF else U32(sum);
             q * c <= kept < q * c + c
    ensures TicklessAlarm(c, last, now, ticks)
         == U64(last + if I32(q * c - (now - last)) < 1000 then U32(q * c + c) else q * c)
  {
    hide ClampedTicks, FloorTo, U32, U64, I32, SaturatedSum;
    var p, e := ClampedTicks(c, ticks) * c, U32(now - last);
    ClampedFits(c, ticks);
    NoWrap32(p);
    SameLowWord(now - last);
    SaturationIs(c, e, p);
    var kept := SaturatedSum(p, U32(e + (c - 1)));
    FloorToBounds(c, kept);
    DivIsUnique(kept, c, q);
    Distribute(q, 1, c);
    NoWrap32(q * c);
    SignedDistance(q * c, last, now);
  }

  lemma SameLowWord(x: int)
    ensures U32(U64(x)) == U32(x) && I32(U64(x)) == I32(x)
  {
    var q := x / 0x1_0000_0000_0000_0000;
    assert x == U64(x) + (q * 0x1_0000_0000) * 0x1_0000_0000;
  }

  lemma SignedDistance(cyc: int, last: int, now: int)
    ensures I32(U64(cyc + last - now)) == I32(cyc - (now - last))
  {
    hide I32, U64;
    SameLowWord(cyc + last - now);
    assert cyc + last - now == cyc - (now - last);
  }

  lemma SaturationIs(c: Cycles, elapsed: u32, p: nat)
    requires p <= MAX_CYC - c
    ensures SaturatedSum(p, U32(elapsed + (c - 1)))
         == if elapsed + c - 1 <= MAX_CYC < p + elapsed + c - 1 then MAX_CYC else U32(p + elapsed + c - 1)
  {
    hide U32;
    var adj := elapsed + (c - 1);
    if adj < 0x1_0000_0000 {
      NoWrap32(adj);
      if adj <= MAX_CYC { NoWrap32(MAX_CYC - adj); } else { NegativeWraps32(MAX_CYC - adj); }
    } else {
      OverflowWraps32(adj);
      NoWrap32(MAX_CYC - (adj - 0x1_0000_0000));
      NoWrap32(p + adj - 0x1_0000_0000);
      OverflowWraps32(p + adj);
    }
  }

  lemma OverflowWraps32(x: int)
    requires 0x1_0000_0000 <= x < 0x2_0000_0000
    ensures U32(x) == x - 0x1_0000_0000
  {
  }

  /** Once the sum wraps, the rounded cycles and one more tick stay short of the cycles already elapsed. */
  lemma RoundingFallsShort(c: Cycles, elapsed: u64, k: i32)
    requires 0 <= k * c <= MAX_CYC - c && 0x1_0000_0000 <= k * c + elapsed + c - 1
    ensures AlarmCycles(c, elapsed, k) < elapsed && U32(AlarmCycles(c, elapsed, k) + c) < elapsed
  {
    hide FloorTo; hide U32; hide SaturatedSum;
    if elapsed < 0x1_0000_0000 {
      var p := k * c;
      NoWrap32(p);
      NoWrap32(elapsed);
      if elapsed + c - 1 < 0x1_0000_0000 {
        SumWraps(c, elapsed, p);
      } else {
        OffsetWraps(c, elapsed, k);
      }
      var cyc := FloorTo(c, SaturatedSum(p, U32(elapsed + (c - 1))));
      NoWrap32(cyc);
      NoWrap32(cyc + c);
    }
  }

  lemma SumWraps(c: Cycles, elapsed: u32, p: nat)
    requires p <= MAX_CYC - c && elapsed + c - 1 < 0x1_0000_0000 <= p + elapsed + c - 1
    ensures 0 <= FloorTo(c, SaturatedSum(p, U32(elapsed + (c - 1)))) < elapsed - c
  {
    hide FloorTo; hide U32;
    NoWrap32(elapsed + (c - 1));
    NegativeWraps32(MAX_CYC - (elapsed + c - 1));
    OverflowWraps32(p + elapsed + (c - 1));
    FloorToBounds(c, p + elapsed + (c - 1) - 0x1_0000_0000);
  }

  lemma OffsetWraps(c: Cycles, elapsed: u32, k: nat)
    requires k * c <= MAX_CYC - c && 0x1_0000_0000 <= elapsed + c - 1
    ensures 0 <= FloorTo(c, SaturatedSum(k * c, U32(elapsed + (c - 1)))) < elapsed - c
  {
    hide FloorTo; hide U32;
    OverflowWraps32(elapsed + (c - 1));
    var adj := elapsed + (c - 1) - 0x1_0000_0000;
    NoWrap32(MAX_CYC - adj);
    NoWrap32(k * c + adj);
    FloorToBounds(c, adj + k * c);
    DivShift(adj, k, c);
    DivIsUnique(adj, c, 0);
  }

  /** The interrupt taken at or after the alarm of a request that is neither clamped nor saturated announces enough: the ticks
      then accounted for reach at least one less than asked, counted from the moment of the call, so that many whole ticks
      have passed. */
  lemma AlarmServesRequest(c: Cycles, last: u64, now: u64, ticks: i32, irq: u64)
    requires 1 <= ticks && FarFromOverflow(last, now)
    requires ticks * c <= MAX_CYC && (ticks - 1) * c + (now - last) + c - 1 <= MAX_CYC
    requires TicklessAlarm(c, last, now, ticks) <= irq && irq - last < 0x8000_0000 + c - 1
    ensures now + (ticks - 1) * c <= CountAfter(c, last, irq) == last + DueTicks(c, last, irq) * c <= irq
  {
    hide FloorTo, ClampedTicks, TicklessAlarm, CountAfter, DueTicks;
    MulMonotone(0, ticks - 1, c);
    AlarmForTicks(c, last, now, ticks);
    GapFits(c, irq - last);
    InterruptExactIff(c, last, irq);
    FloorToBounds(c, irq - last);
    var q: int :| now + (ticks - 1) * c <= last + q * c && last + q * c <= TicklessAlarm(c, last, now, ticks);
    BoundaryReached(c, q, irq - last);
  }

  lemma BoundaryReached(c: Cycles, q: int, gap: int)
    requires q * c <= gap
    ensures q * c <= FloorTo(c, gap)
  {
    hide FloorTo;
    FloorToBounds(c, gap);
    Distribute(gap / c, 1, c);
    if gap / c < q { MulMonotone(gap / c + 1, q, c); } else { MulMonotone(q, gap / c, c); }
  }

  // ----- the driver and its alarm as a closed loop ----------------------------------------------------------------

  /** What the interrupt controller and the kernel owe the driver: the counter never goes back, nothing happens later than
      `latency` cycles after the alarm that is programmed (by then it has been served and set anew), and timeouts are set
      less than about 2^31 cycles after the last boundary. */
  predicate OnSchedule(c: Cycles, start: u64, latency: nat, run: seq<Event>) {
    run != [] ==>
      && OnSchedule(c, start, latency, run[..|run| - 1])
      && var h := After(c, start, run[..|run| - 1]);
         var now := run[|run| - 1].now;
         && h.clock <= now <= h.alarm + latency
         && now + 0x2_0000_0000 <= 0x1_0000_0000_0000_0000
         && (run[|run| - 1].SetTimeout? ==> now - h.last + c - 1 <= MAX_CYC)
  }

  /** Nothing is assumed about the gaps between interrupts: the alarms the driver programs keep every run on schedule countable,
      if a tick is at least two cycles and tick and latency together at most 2^31. */
  lemma {:induction false} ClosedLoopIsTimely(c: Cycles, start: u64, latency: nat, run: seq<Event>)
    requires 2 <= c && c + latency <= 0x8000_0000 && start + 0x2_0000_0000 <= 0x1_0000_0000_0000_0000
    requires OnSchedule(c, start, latency, run)
    ensures Timely(c, start, run)
    ensures var h := After(c, start, run); h.alarm <= h.last + MAX_CYC + c
  {
    hide TicklessAlarm, CountAfter, DueTicks, Countable;
    if run == [] {
      NoWrap64(start + c);
    } else {
      var earlier, event := run[..|run| - 1], run[|run| - 1];
      ClosedLoopIsTimely(c, start, latency, earlier);
      EveryRunConsistent(c, start, earlier);
      var h := After(c, start, earlier);
      match event {
        case Interrupt(now) =>
          ShortGapIsCountable(c, now - h.last);
          InterruptKeepsConsistent(c, start, h, now);
        case SetTimeout(now, ticks) => AlarmIsBounded(c, h.last, now, ticks);
        case Query(_) =>
      }
    }
  }

  lemma ShortGapIsCountable(c: Cycles, gap: nat)
    requires 2 <= c && gap < 0x1_0000_0000
    ensures Countable(c, gap)
  {
    DivBounds(gap, c);
    if 0x8000_0000 <= gap / c { MulMonotone(0x8000_0000, gap / c, c); }
  }

  lemma AlarmIsBounded(c: Cycles, last: u64, now: u64, ticks: Ticks)
    requires FarFromOverflow(last, now) && now - last + c - 1 <= MAX_CYC
    ensures TicklessAlarm(c, last, now, ticks) <= last + MAX_CYC + c
  {
    hide TicklessAlarm, ClampedTicks;
    AlarmMeetsRequest(c, last, now, ticks);
    BoundaryAtIsLeast(c, now - last + ClampedTicks(c, ticks) * c);
  }

  /** Over every run on schedule, ticks are conserved. */
  lemma ClosedLoopConservesTicks(c: Cycles, start: u64, latency: nat, run: seq<Event>, now: u64)
    requires 2 <= c && c + latency <= 0x8000_0000 && start + 0x2_0000_0000 <= 0x1_0000_0000_0000_0000
    requires OnSchedule(c, start, latency, run + [Query(now)])
    ensures var h := After(c, start, run);
            h.announced + ElapsedTicks(c, h.last, now) == (now - start) / c
  {
    assert (run + [Query(now)])[..|run|] == run;
    ClosedLoopIsTimely(c, start, latency, run);
    TicksConservedIff(c, start, run, now);
  }

  /** A run on schedule can always go on with the interrupt at its alarm, and, when a tick has at most 2^30 cycles, with any
      request right after that. */
  lemma ScheduleGoesOn(c: Cycles, start: u64, latency: nat, run: seq<Event>, next: u64, ticks: Ticks)
    requires 2 <= c && c + latency <= 0x8000_0000 && start + 0x2_0000_0000 <= 0x1_0000_0000_0000_0000
    requires OnSchedule(c, start, latency, run) && next + 0x2_0000_0000 <= 0x1_0000_0000_0000_0000
    requires var h := After(c, start, run); next == if h.alarm < h.clock then h.clock else h.alarm
    ensures OnSchedule(c, start, latency, run + [Interrupt(next)])
    ensures c <= 0x4000_0000 ==> OnSchedule(c, start, latency, run + [Interrupt(next)] + [SetTimeout(next, ticks)])
  {
    hide TicklessAlarm, CountAfter, DueTicks, Countable, OnSchedule;
    var served := run + [Interrupt(next)];
    var armed := served + [SetTimeout(next, ticks)];
    assert served[..|run|] == run && armed[..|served|] == served;
    ClockNearAlarm(c, start, latency, run);
    assert OnSchedule(c, start, latency, served) by { ScheduleStep(c, start, latency, served); }
    if c <= 0x4000_0000 {
      ClosedLoopIsTimely(c, start, latency, served);
      EveryRunConsistent(c, start, served);
      ScheduleStep(c, start, latency, armed);
    }
  }

  lemma ScheduleStep(c: Cycles, start: u64, latency: nat, run: seq<Event>)
    requires run != [] && OnSchedule(c, start, latency, run[..|run| - 1])
    requires var h := After(c, start, run[..|run| - 1]);
             var now := run[|run| - 1].now;
             && h.clock <= now <= h.alarm + latency
             && now + 0x2_0000_0000 <= 0x1_0000_0000_0000_0000
             && (run[|run| - 1].SetTimeout? ==> now - h.last + c - 1 <= MAX_CYC)
    ensures OnSchedule(c, start, latency, run)
  {
    hide After;
  }

  lemma ClockNearAlarm(c: Cycles, start: u64, latency: nat, run: seq<Event>)
    requires 2 <= c && c + latency <= 0x8000_0000 && start + 0x2_0000_0000 <= 0x1_0000_0000_0000_0000
    requires OnSchedule(c, start, latency, run)
    ensures var h := After(c, start, run); h.clock <= h.alarm + latency
  {
    hide TicklessAlarm, CountAfter, DueTicks, Countable;
    if run == [] {
      NoWrap64(start + c);
    } else {
      var earlier, event := run[..|run| - 1], run[|run| - 1];
      ClosedLoopIsTimely(c, start, latency, earlier);
      EveryRunConsistent(c, start, earlier);
      var h := After(c, start, earlier);
      if event.SetTimeout? {
        AlarmMeetsRequest(c, h.last, event.now, event.ticks);
      }
    }
  }

  /** A request to wait forever, and again when most of it has passed. */
  function ForeverTwice(start: u64): seq<Event>
    requires start + 0x3_0000_0000 <= 0x1_0000_0000_0000_0000
  {
    [SetTimeout(start, TICKS_FOREVER), SetTimeout(start + 0x7FFF_FFFA, TICKS_FOREVER)]
  }

  /** One-cycle ticks are different: after two requests to wait forever, the interrupt taken at the very cycle of the alarm
      announces -2^31 ticks. */
  lemma OneCycleTicksOverflow(start: u64)
    requires start + 0x3_0000_0000 <= 0x1_0000_0000_0000_0000
    ensures var waiting := ForeverTwice(start);
            var run := waiting + [Interrupt(start + 0x8000_0000)];
            && OnSchedule(1, start, 0, run) && !Timely(1, start, run)
            && After(1, start, waiting).alarm == start + 0x8000_0000
            && After(1, start, run).announced == -0x8000_0000
  {
    hide TicklessAlarm, AlarmCycles, CountAfter;
    var first, second := SetTimeout(start, TICKS_FOREVER), SetTimeout(start + 0x7FFF_FFFA, TICKS_FOREVER);
    var waiting, irq := ForeverTwice(start), Interrupt(start + 0x8000_0000);
    assert waiting[..1] == [first] && [first][..0] == [] && (waiting + [irq])[..2] == waiting;
    ForeverAtOneCycle(start, 0);
    ForeverAtOneCycle(start, 0x7FFF_FFFA);
    NoWrap64(start + 1);
    assert After(1, start, [first]) == History(start, start + 0x7FFF_FFFD, start, start, 0);
    assert OnSchedule(1, start, 0, [first]);
    assert After(1, start, waiting) == History(start, start + 0x8000_0000, start, start + 0x7FFF_FFFA, 0);
    assert OnSchedule(1, start, 0, waiting);
    assert DueTicks(1, start, start + 0x8000_0000) == -0x8000_0000;
  }

  lemma ForeverAtOneCycle(start: u64, elapsed: u32)
    requires start + 0x3_0000_0000 <= 0x1_0000_0000_0000_0000 && elapsed <= 0x7FFF_FFFF
    ensures TicklessAlarm(1, start, start + elapsed, TICKS_FOREVER)
         == start + if elapsed <= 2 then elapsed + 0x7FFF_FFFD else if elapsed <= 0x7FFF_FC17 then 0x7FFF_FFFF else 0x8000_0000
  {
    hide TicklessAlarm, AlarmCycles;
    assert ClampedTicks(1, TICKS_FOREVER) == 0x7FFF_FFFD;
    RoundingIsExact(1, elapsed, 0x7FFF_FFFD);
    DelayedAlarm(1, start, start + elapsed, TICKS_FOREVER, Target(1, elapsed, 0x7FFF_FFFD));
  }

  lemma {:induction false} ScheduleAllowsMoreLatency(c: Cycles, start: u64, latency: nat, more: nat, run: seq<Event>)
    requires latency <= more && OnSchedule(c, start, latency, run)
    ensures OnSchedule(c, start, more, run)
  {
    hide After;
    if run != [] {
      ScheduleAllowsMoreLatency(c, start, latency, more, run[..|run| - 1]);
    }
  }

  /** So, for any latency within bounds, the driver's own alarms keep every run on schedule countable exactly when a tick has
      at least two cycles. */
  lemma ClosedLoopIsTimelyIff(c: Cycles, start: u64, latency: nat)
    requires c + latency <= 0x8000_0000 && start + 0x3_0000_0000 <= 0x1_0000_0000_0000_0000
    ensures (forall run :: OnSchedule(c, start, latency, run) ==> Timely(c, start, run)) <==> 2 <= c
  {
    hide OnSchedule, Timely, After;
    if 2 <= c {
      forall run | OnSchedule(c, start, latency, run) ensures Timely(c, start, run) {
        ClosedLoopIsTimely(c, start, latency, run);
      }
    } else {
      OneCycleTicksOverflow(start);
      ScheduleAllowsMoreLatency(1, start, 0, latency, ForeverTwice(start) + [Interrupt(start + 0x8000_0000)]);
    }
  }

  // ----- the periodic alarm ---------------------------------------------------------------------------------------

  /** In periodic mode each interrupt sets the first boundary after now, or the one after that if the first is closer than the
      minimum delay.  That is far enough away, and then the first boundary that is, exactly when the second one is. */
  lemma PeriodicAlarmIsNext(c: Cycles, last: u64, now: u64)
    requires FarFromOverflow(last, now) && (now - last) / c < 0x8000_0000 && FloorTo(c, now - last) < 0x1_0000_0000
    ensures var alarm := PeriodicAlarm(c, CountAfter(c, last, now), now);
            var first := last + ((now - last) / c + 1) * c;
            && now < first <= now + c && (alarm - last) % c == 0
            && alarm == (if first - now < MIN_DELAY then first + c else first)
            && (now + MIN_DELAY <= alarm <==> now + MIN_DELAY <= first + c)
            && (now + MIN_DELAY <= alarm ==> forall m: int :: now + MIN_DELAY <= last + m * c ==> alarm <= last + m * c)
  {
    hide FloorTo; hide CountAfter; hide DueTicks; hide U64;
    InterruptExactIff(c, last, now);
    FloorToBounds(c, now - last);
    var q := (now - last) / c;
    Distribute(q, 1, c);
    var next := CountAfter(c, last, now) + c;
    NoWrap64(next);
    NoWrap64(next - now);
    NoWrap64(next + c);
    var alarm := PeriodicAlarm(c, CountAfter(c, last, now), now);
    var steps := if last + (q + 1) * c - now < MIN_DELAY then q + 2 else q + 1;
    Distribute(q, steps - q, c);
    assert alarm == last + steps * c;
    MultipleHasNoRemainder(steps, c);
    Distribute(steps - 1, 1, c);
    LeastMultiple(c, steps, now + MIN_DELAY - last);
  }

  lemma LeastMultiple(c: Cycles, steps: int, x: int)
    requires (steps - 1) * c < x
    ensures forall m: int :: x <= m * c ==> steps * c <= m * c
  {
    forall m: int | x <= m * c ensures steps * c <= m * c {
      if m < steps { MulMonotone(m, steps - 1, c); } else { MulMonotone(steps, m, c); }
    }
  }

  /** So the minimum delay is kept after every interrupt exactly when a tick is at most one cycle shorter than it. */
  lemma PeriodicDelayKeptIff(c: Cycles, last: u64)
    requires last + c + 0x2_0000_0000 <= 0x1_0000_0000_0000_0000
    ensures (forall now: u64 :: last <= now < last + c ==> now + MIN_DELAY <= PeriodicAlarm(c, CountAfter(c, last, now), now))
       <==> MIN_DELAY - 1 <= c
  {
    hide CountAfter, PeriodicAlarm;
    forall now: u64 | last <= now < last + c
      ensures now + MIN_DELAY <= PeriodicAlarm(c, CountAfter(c, last, now), now) <==> now + MIN_DELAY <= last + c + c
    {
      DivIsUnique(now - last, c, 0);
      PeriodicAlarmIsNext(c, last, now);
    }
    var worst: u64 := last + c - 1;
    assert worst + MIN_DELAY <= PeriodicAlarm(c, CountAfter(c, last, worst), worst) <==> worst + MIN_DELAY <= last + c + c;
  }

  /** With one cycle to a tick, the SoC's default, the alarm is two cycles away. */
  lemma PeriodicAlarmTooClose()
    ensures PeriodicAlarm(1, CountAfter(1, 0, 5), 5) == 7 < 5 + MIN_DELAY
  {
    assert CountAfter(1, 0, 5) == 5 by { assert DueTicks(1, 0, 5) == 5; }
    hide CountAfter;
  }
}
