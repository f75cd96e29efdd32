/** The bitmap operations of include/sys/atomic.h over an array of 32-bit words (`long` on this target).  Each operation is
    one atomic fetch-and-or or fetch-and-and of one word, so an interleaving of any number of threads is a sequence of
    operations. */
module AtomicBitmap {

  const ATOMIC_BITS: nat := 32

  /** `ATOMIC_MASK`, after the bit number is reduced to its word. */
  function Mask(k: nat): bv32
    requires k < 32
  {
    1 << k
  }

  // The word operations, named so that the proofs about arrays need not look inside them.

  function Or(w: bv32, v: bv32): bv32 { w | v }

  function And(w: bv32, v: bv32): bv32 { w & v }

  function Not(v: bv32): bv32 { !v }

  function Meets(w: bv32, mask: bv32): bool { And(w, mask) != 0 }

  function Half(w: bv32): bv32 { w >> 1 }

  function Double(m: bv32): bv32 { m << 1 }

  /** `w >> k`, one place at a time. */
  function ShiftRight(w: bv32, k: nat): bv32
    decreases k
  {
    if k == 0 then w else ShiftRight(Half(w), k - 1)
  }

  function LowBitAfterShift(w: bv32, k: nat): bool { Meets(1, ShiftRight(w, k)) }

  predicate TopClear(m: bv32) { m < 0x8000_0000 }

  /** `ATOMIC_BITMAP_SIZE`. */
  function BitmapSize(numBits: nat): nat
    requires 0 < numBits
  {
    1 + (numBits - 1) / ATOMIC_BITS
  }

  /** Bit `b` of the array, by the mask that sets and clears it. */
  predicate Bit(words: seq<bv32>, b: nat)
    requires b / 32 < |words|
  {
    Meets(words[b / 32], Mask(b % 32))
  }

  // ----- the code ------------------------------------------------------------------------------------------------

  method AtomicOr(target: array<bv32>, i: nat, value: bv32) returns (before: bv32)
    requires i < target.Length
    modifies target
    ensures target[..] == old(target[..])[i := Or(old(target[i]), value)] && before == old(target[i])
  {
    before := target[i];
    target[i] := Or(target[i], value);
  }

  method AtomicAnd(target: array<bv32>, i: nat, value: bv32) returns (before: bv32)
    requires i < target.Length
    modifies target
    ensures target[..] == old(target[..])[i := And(old(target[i]), value)] && before == old(target[i])
  {
    before := target[i];
    target[i] := And(target[i], value);
  }

  datatype Op =
    | TestAndSet(bit: nat)
    | TestAndClear(bit: nat)
    | SetTo(bit: nat, val: bool)  // atomic_set_bit, atomic_clear_bit and atomic_set_bit_to
    | Test(bit: nat)

  /** What one operation does to the words and what it answers. */
  function Exec(words: seq<bv32>, op: Op): (seq<bv32>, bool)
    requires op.bit / 32 < |words|
  {
    var i, mask := op.bit / 32, Mask(op.bit % 32);
    match op
    case TestAndSet(_) => (words[i := Or(words[i], mask)], Meets(words[i], mask))
    case TestAndClear(_) => (words[i := And(words[i], Not(mask))], Meets(words[i], mask))
    case SetTo(_, val) => (words[i := if val then Or(words[i], mask) else And(words[i], Not(mask))], false)
    case Test(_) => (words, LowBitAfterShift(words[i], op.bit % 32))
  }

  method TestBit(target: array<bv32>, bit: nat) returns (isSet: bool)
    requires bit / 32 < target.Length
    ensures isSet == Exec(target[..], Test(bit)).1
  {
    hide LowBitAfterShift;
    var val := target[bit / ATOMIC_BITS];
    isSet := LowBitAfterShift(val, bit % 32);
  }

  method TestAndSetBit(target: array<bv32>, bit: nat) returns (was: bool)
    requires bit / 32 < target.Length
    modifies target
    ensures (target[..], was) == Exec(old(target[..]), TestAndSet(bit))
  {
    hide Mask; hide Or; hide And; hide Not; hide Meets;
    var mask := Mask(bit % 32);
    var before := AtomicOr(target, bit / ATOMIC_BITS, mask);
    was := Meets(before, mask);
  }

  method TestAndClearBit(target: array<bv32>, bit: nat) returns (was: bool)
    requires bit / 32 < target.Length
    modifies target
    ensures (target[..], was) == Exec(old(target[..]), TestAndClear(bit))
  {
    hide Mask; hide Or; hide And; hide Not; hide Meets;
    var mask := Mask(bit % 32);
    var before := AtomicAnd(target, bit / ATOMIC_BITS, Not(mask));
    was := Meets(before, mask);
  }

  method SetBitTo(target: array<bv32>, bit: nat, val: bool)
    requires bit / 32 < target.Length
    modifies target
    ensures target[..] == Exec(old(target[..]), SetTo(bit, val)).0
  {
    hide Mask; hide Or; hide And; hide Not; hide Meets;
    var mask := Mask(bit % 32);
    if val {
      var _ := AtomicOr(target, bit / ATOMIC_BITS, mask);
    } else {
      var _ := AtomicAnd(target, bit / ATOMIC_BITS, Not(mask));
    }
  }

  // ----- the array is a set of bit numbers -------------------------------------------------------------------------

  lemma MasksDisjoint(j: nat, k: nat)
    requires j < 32 && k < 32 && j != k
    ensures !Meets(Mask(j), Mask(k))
  {
  }

  lemma OrDistributes(w: bv32, m: bv32, n: bv32)
    ensures And(Or(w, m), n) == Or(And(w, n), And(m, n))
  {
  }

  lemma AndNotDistributes(w: bv32, m: bv32, n: bv32)
    ensures And(And(w, Not(m)), n) == And(And(w, n), Not(And(m, n)))
  {
  }

  lemma ZeroIsNeutral(w: bv32)
    ensures Or(w, 0) == w && And(w, Not(0)) == w
  {
  }

  lemma OthersKept(w: bv32, m: bv32, n: bv32)
    requires !Meets(m, n)
    ensures Meets(Or(w, m), n) == Meets(w, n) == Meets(And(w, Not(m)), n)
  {
    hide Or; hide And; hide Not;
    OrDistributes(w, m, n);
    AndNotDistributes(w, m, n);
    ZeroIsNeutral(And(w, n));
  }

  lemma OwnBit(w: bv32, m: bv32)
    requires m != 0
    ensures Meets(Or(w, m), m) && !Meets(And(w, Not(m)), m)
  {
  }

  lemma MaskNotZero(k: nat)
    requires k < 32
    ensures Mask(k) != 0
  {
  }

  lemma MaskTopClear(k: nat)
    requires k < 31
    ensures TopClear(Mask(k))
  {
  }

  lemma OwnMask(w: bv32, k: nat)
    requires k < 32
    ensures Meets(Or(w, Mask(k)), Mask(k)) && !Meets(And(w, Not(Mask(k))), Mask(k))
  {
    hide Mask; hide Or; hide And; hide Not; hide Meets;
    MaskNotZero(k);
    OwnBit(w, Mask(k));
  }

  lemma MaskStep(k: nat)
    requires 0 < k < 32
    ensures Mask(k) == Double(Mask(k - 1))
  {
  }

  lemma ShiftOne(w: bv32, m: bv32)
    requires TopClear(m)
    ensures Meets(Half(w), m) <==> Meets(w, Double(m))
  {
  }

  lemma LowBit(w: bv32)
    ensures Meets(1, w) <==> Meets(w, Mask(0))
  {
  }

  /** Shifting a bit down and testing the lowest place is testing it in place. */
  lemma {:induction false} ShiftedBit(w: bv32, k: nat)
    requires k < 32
    ensures LowBitAfterShift(w, k) <==> Meets(w, Mask(k))
    decreases k
  {
    hide Mask; hide Meets; hide Half; hide Double; hide TopClear;
    if k == 0 {
      LowBit(w);
    } else {
      ShiftedBit(Half(w), k - 1);
      MaskTopClear(k - 1);
      MaskStep(k);
      ShiftOne(w, Mask(k - 1));
    }
  }

  /** Bit `b` is place `b % 32` of word `b / 32`, counted from the lowest. */
  lemma BitIsPlace(words: seq<bv32>, b: nat)
    requires b / 32 < |words|
    ensures Bit(words, b) <==> (words[b / 32] >> ((b % 32) as bv5)) & 1 == 1
  {
  }

  /** Every bit below the size asked for has its word in the array, and the array is not a word too long. */
  lemma SizeIsExact(numBits: nat)
    requires 0 < numBits
    ensures forall b: nat :: b < numBits ==> b / 32 < BitmapSize(numBits)
    ensures (numBits - 1) / 32 == BitmapSize(numBits) - 1
  {
  }

  /** The value an operation leaves in its own bit. */
  function Left(op: Op, was: bool): bool {
    match op
    case TestAndSet(_) => true
    case TestAndClear(_) => false
    case SetTo(_, val) => val
    case Test(_) => was
  }

  /** Each operation sees its own bit, leaves the value it should there, and leaves every other bit of the array alone. */
  lemma OpTouchesOneBit(words: seq<bv32>, op: Op, b: nat)
    requires op.bit / 32 < |words| && b / 32 < |words|
    ensures var (after, answer) := Exec(words, op);
            && |after| == |words|
            && (Bit(after, b) <==> if b == op.bit then Left(op, Bit(words, b)) else Bit(words, b))
            && (!op.SetTo? ==> (answer <==> Bit(words, op.bit)))
  {
    hide Mask; hide Or; hide And; hide Not; hide Meets; hide LowBitAfterShift;
    var i := op.bit / 32;
    OwnMask(words[i], op.bit % 32);
    ShiftedBit(words[i], op.bit % 32);
    if b != op.bit && b / 32 == i {
      MasksDisjoint(op.bit % 32, b % 32);
      OthersKept(words[i], Mask(op.bit % 32), Mask(b % 32));
    }
  }

  ghost function Members(words: seq<bv32>, numBits: nat): set<nat>
    requires 0 < numBits && BitmapSize(numBits) <= |words|
  {
    set b: nat | b < numBits && Bit(words, b)
  }

  /** The same operation on the set of bit numbers. */
  function ExecOnSet(s: set<nat>, op: Op): (set<nat>, bool) {
    (if Left(op, op.bit in s) then s + {op.bit} else s - {op.bit}, !op.SetTo? && op.bit in s)
  }

  /** An array of the macro's size refines a set of bit numbers: every operation below the size does and answers what the
      set operation does and answers. */
  lemma OpRefinesSet(words: seq<bv32>, numBits: nat, op: Op)
    requires 0 < numBits && BitmapSize(numBits) <= |words| && op.bit < numBits
    ensures |Exec(words, op).0| == |words|
    ensures (Members(Exec(words, op).0, numBits), Exec(words, op).1) == ExecOnSet(Members(words, numBits), op)
  {
    hide Exec; hide Bit; hide Left;
    SizeIsExact(numBits);
    OpTouchesOneBit(words, op, op.bit);
    var after := Exec(words, op).0;
    forall b: nat | b < numBits ensures Bit(after, b) <==> if b == op.bit then Left(op, Bit(words, b)) else Bit(words, b) {
      OpTouchesOneBit(words, op, b);
    }
    SetToAnswersNothing(words, op);
    assert Members(after, numBits) == ExecOnSet(Members(words, numBits), op).0;
  }

  lemma SetToAnswersNothing(words: seq<bv32>, op: Op)
    requires op.bit / 32 < |words|
    ensures op.SetTo? ==> !Exec(words, op).1
  {
  }

  // ----- interleavings ---------------------------------------------------------------------------------------------

  predicate InRange(words: seq<bv32>, ops: seq<Op>) {
    forall i :: 0 <= i < |ops| ==> ops[i].bit / 32 < |words|
  }

  /** The words after any interleaving, oldest operation first. */
  function AfterAll(words: seq<bv32>, ops: seq<Op>): (r: seq<bv32>)
    requires InRange(words, ops)
    ensures |r| == |words|
  {
    if ops == [] then words
    else Exec(AfterAll(words, ops[..|ops| - 1]), ops[|ops| - 1]).0
  }

  /** The operation at `i` is a test-and-modify of bit `b` whose answer tells its caller that it changed the bit. */
  ghost predicate ReportsChange(words: seq<bv32>, ops: seq<Op>, i: int, b: nat)
    requires InRange(words, ops) && 0 <= i < |ops|
  {
    var answer := Exec(AfterAll(words, ops[..i]), ops[i]).1;
    ops[i].bit == b && ((ops[i].TestAndSet? && !answer) || (ops[i].TestAndClear? && answer))
  }

  /** Bit `b` is only tested, set and cleared by the answering operations; other bits by any. */
  predicate Disciplined(ops: seq<Op>, b: nat) {
    forall i :: 0 <= i < |ops| ==> !(ops[i].SetTo? && ops[i].bit == b)
  }

  /** The latest operation before `n` that reported a change of bit `b`, -1 if none did. */
  ghost function LatestReport(words: seq<bv32>, ops: seq<Op>, n: nat, b: nat): int
    requires InRange(words, ops) && n <= |ops|
  {
    if n == 0 then -1 else if ReportsChange(words, ops, n - 1, b) then n - 1 else LatestReport(words, ops, n - 1, b)
  }

  /** Before operation `n`, bit `b` has the value of the latest reported change, or the initial one. */
  lemma {:induction false} LatestReportDecides(words: seq<bv32>, ops: seq<Op>, n: nat, b: nat)
    requires InRange(words, ops) && n <= |ops| && b / 32 < |words| && Disciplined(ops, b)
    ensures var i := LatestReport(words, ops, n, b);
            && -1 <= i < n
            && (Bit(AfterAll(words, ops[..n]), b) <==> if i < 0 then Bit(words, b) else ops[i].TestAndSet?)
    ensures forall m :: LatestReport(words, ops, n, b) < m < n ==> !ReportsChange(words, ops, m, b)
    ensures var i := LatestReport(words, ops, n, b); i >= 0 ==> ReportsChange(words, ops, i, b)
  {
    hide Exec; hide Bit;
    if n > 0 {
      LatestReportDecides(words, ops, n - 1, b);
      assert ops[..n][..n - 1] == ops[..n - 1] && ops[..n][n - 1] == ops[n - 1];
      OpTouchesOneBit(AfterAll(words, ops[..n - 1]), ops[n - 1], b);
    }
  }

  /** In every interleaving the calls that report a change of a bit alternate: the one reported before is of the other kind,
      and the first tells the initial value.  So between clears exactly one setter sees "was clear". */
  lemma ReportsAlternate(words: seq<bv32>, ops: seq<Op>, b: nat, j: nat)
    requires InRange(words, ops) && b / 32 < |words| && Disciplined(ops, b)
    requires j < |ops| && ReportsChange(words, ops, j, b)
    ensures var i := LatestReport(words, ops, j, b);
            && -1 <= i < j
            && (i >= 0 ==> ReportsChange(words, ops, i, b) && (ops[i].TestAndSet? <==> ops[j].TestAndClear?))
            && (i < 0 ==> (ops[j].TestAndSet? <==> !Bit(words, b)))
    ensures forall m :: LatestReport(words, ops, j, b) < m < j ==> !ReportsChange(words, ops, m, b)
  {
    hide Exec; hide Bit;
    LatestReportDecides(words, ops, j, b);
    OpTouchesOneBit(AfterAll(words, ops[..j]), ops[j], b);
  }
}
