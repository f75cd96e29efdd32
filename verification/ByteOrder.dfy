/** Byte order: include/sys/byteorder.h.  `ByteAt` numbers the bytes of a word; every put, get and swap is related to it. */
module ByteOrder {

  type byte = bv8

  // ----- the reference -------------------------------------------------------------------------------------------

  // Widening, named so that proofs about sequences need not look into it.
  function Wide8(x: byte): bv64 { x as bv64 }
  function Wide16(x: bv16): bv64 { x as bv64 }
  function Wide32(x: bv32): bv64 { x as bv64 }

  /** Byte `i` of a word, counting from the least significant. */
  function ByteAt(x: bv64, i: nat): byte
    requires i < 8
  {
    if i == 0 then (x & 0xff) as byte
    else if i == 1 then ((x >> 8) & 0xff) as byte
    else if i == 2 then ((x >> 16) & 0xff) as byte
    else if i == 3 then ((x >> 24) & 0xff) as byte
    else if i == 4 then ((x >> 32) & 0xff) as byte
    else if i == 5 then ((x >> 40) & 0xff) as byte
    else if i == 6 then ((x >> 48) & 0xff) as byte
    else ((x >> 56) & 0xff) as byte
  }

  function LeBytes(x: bv64, n: nat): seq<byte>
    requires n <= 8
  {
    seq(n, i requires 0 <= i < n => ByteAt(x, i))
  }

  function Reversed<T>(s: seq<T>): seq<T> {
    seq(|s|, i requires 0 <= i < |s| => s[|s| - 1 - i])
  }

  /** Big-endian bytes are the little-endian bytes reversed. */
  function BeBytes(x: bv64, n: nat): seq<byte>
    requires n <= 8
  {
    Reversed(LeBytes(x, n))
  }

  /** `s` with `b` stored from `at` on. */
  function Written<T>(s: seq<T>, at: nat, b: seq<T>): seq<T>
    requires at + |b| <= |s|
  {
    s[..at] + b + s[at + |b|..]
  }

  /** A word whose low `n` bytes are those of `lo` and whose next `m` bytes are those of `hi`. */
  ghost predicate Joins(x: bv64, hi: bv64, m: nat, lo: bv64, n: nat)
    requires m + n <= 8
  {
    (forall i :: 0 <= i < m ==> ByteAt(hi, i) == ByteAt(x, n + i)) && (forall i :: 0 <= i < n ==> ByteAt(lo, i) == ByteAt(x, i))
  }

  lemma JoinedBytes(x: bv64, hi: bv64, m: nat, lo: bv64, n: nat)
    requires m + n <= 8 && Joins(x, hi, m, lo, n)
    ensures BeBytes(x, m + n) == BeBytes(hi, m) + BeBytes(lo, n)
    ensures LeBytes(x, m + n) == LeBytes(lo, n) + LeBytes(hi, m)
  {
    hide ByteAt;
  }

  /** Storing the parts one after the other stores the word. */
  lemma StoredParts(s: seq<byte>, at: nat, x: bv64, hi: bv64, m: nat, lo: bv64, n: nat)
    requires m + n <= 8 && at + m + n <= |s| && Joins(x, hi, m, lo, n)
    ensures Written(Written(s, at, BeBytes(hi, m)), at + m, BeBytes(lo, n)) == Written(s, at, BeBytes(x, m + n))
    ensures Written(Written(s, at, LeBytes(lo, n)), at + n, LeBytes(hi, m)) == Written(s, at, LeBytes(x, m + n))
  {
    hide ByteAt;
    JoinedBytes(x, hi, m, lo, n);
  }

  lemma OneByte(x: byte)
    ensures BeBytes(Wide8(x), 1) == [x] == LeBytes(Wide8(x), 1)
  {
  }

  lemma TwoBytes(val: bv16)
    ensures BeBytes(Wide16(val), 2) == [(val >> 8) as byte, (val & 0xff) as byte]
    ensures LeBytes(Wide16(val), 2) == [(val & 0xff) as byte, (val >> 8) as byte]
  {
  }

  lemma EncodedLength(x: bv64, n: nat)
    requires n <= 8
    ensures |BeBytes(x, n)| == |LeBytes(x, n)| == n
  {
    hide ByteAt;
  }

  lemma ReversedLength<T>(s: seq<T>)
    ensures |Reversed(s)| == |s|
  {
  }

  lemma WrittenOne(s: seq<byte>, at: nat, b: byte)
    requires at < |s|
    ensures Written(s, at, [b]) == s[at := b]
  {
  }

  // ----- put: each width is stored by the widths below it ---------------------------------------------------------

  lemma Parts24(val: bv32)
    ensures Joins(Wide32(val), Wide8(((val >> 16) & 0xff) as bv8), 1, Wide16((val & 0xffff) as bv16), 2)
  {
  }

  lemma Parts32(val: bv32)
    ensures Joins(Wide32(val), Wide16(((val >> 16) & 0xffff) as bv16), 2, Wide16((val & 0xffff) as bv16), 2)
  {
  }

  lemma Parts48(val: bv64)
    ensures Joins(val, Wide16(((val >> 32) & 0xffff) as bv16), 2, Wide32((val & 0xffffffff) as bv32), 4)
  {
  }

  lemma Parts64(val: bv64)
    ensures Joins(val, Wide32(((val >> 32) & 0xffffffff) as bv32), 4, Wide32((val & 0xffffffff) as bv32), 4)
  {
  }

  method PutBe16(val: bv16, dst: array<byte>, at: nat)
    requires at + 2 <= dst.Length
    modifies dst
    ensures dst[..] == Written(old(dst[..]), at, BeBytes(Wide16(val), 2))
  {
    TwoBytes(val);
    dst[at] := (val >> 8) as byte;
    dst[at + 1] := (val & 0xff) as byte;
  }

  method PutBe24(val: bv32, dst: array<byte>, at: nat)
    requires at + 3 <= dst.Length
    modifies dst
    ensures dst[..] == Written(old(dst[..]), at, BeBytes(Wide32(val), 3))
  {
    hide ByteAt, Written, BeBytes, LeBytes;
    EncodedLength(Wide32(val), 3);
    var hi, lo := ((val >> 16) & 0xff) as bv8, (val & 0xffff) as bv16;
    Parts24(val);
    StoredParts(dst[..], at, Wide32(val), Wide8(hi), 1, Wide16(lo), 2);
    OneByte(hi);
    WrittenOne(dst[..], at, hi);
    dst[at] := hi;
    PutBe16(lo, dst, at + 1);
  }

  method PutBe32(val: bv32, dst: array<byte>, at: nat)
    requires at + 4 <= dst.Length
    modifies dst
    ensures dst[..] == Written(old(dst[..]), at, BeBytes(Wide32(val), 4))
  {
    hide ByteAt;
    var hi, lo := ((val >> 16) & 0xffff) as bv16, (val & 0xffff) as bv16;
    Parts32(val);
    StoredParts(dst[..], at, Wide32(val), Wide16(hi), 2, Wide16(lo), 2);
    PutBe16(hi, dst, at);
    PutBe16(lo, dst, at + 2);
  }

  method PutBe48(val: bv64, dst: array<byte>, at: nat)
    requires at + 6 <= dst.Length
    modifies dst
    ensures dst[..] == Written(old(dst[..]), at, BeBytes(val, 6))
  {
    hide ByteAt;
    var hi, lo := ((val >> 32) & 0xffff) as bv16, (val & 0xffffffff) as bv32;
    Parts48(val);
    StoredParts(dst[..], at, val, Wide16(hi), 2, Wide32(lo), 4);
    PutBe16(hi, dst, at);
    PutBe32(lo, dst, at + 2);
  }

  method PutBe64(val: bv64, dst: array<byte>, at: nat)
    requires at + 8 <= dst.Length
    modifies dst
    ensures dst[..] == Written(old(dst[..]), at, BeBytes(val, 8))
  {
    hide ByteAt;
    var hi, lo := ((val >> 32) & 0xffffffff) as bv32, (val & 0xffffffff) as bv32;
    Parts64(val);
    StoredParts(dst[..], at, val, Wide32(hi), 4, Wide32(lo), 4);
    PutBe32(hi, dst, at);
    PutBe32(lo, dst, at + 4);
  }

  method PutLe16(val: bv16, dst: array<byte>, at: nat)
    requires at + 2 <= dst.Length
    modifies dst
    ensures dst[..] == Written(old(dst[..]), at, LeBytes(Wide16(val), 2))
  {
    TwoBytes(val);
    dst[at] := (val & 0xff) as byte;
    dst[at + 1] := (val >> 8) as byte;
  }

  method PutLe24(val: bv32, dst: array<byte>, at: nat)
    requires at + 3 <= dst.Length
    modifies dst
    ensures dst[..] == Written(old(dst[..]), at, LeBytes(Wide32(val), 3))
  {
    hide ByteAt, Written, BeBytes, LeBytes;
    EncodedLength(Wide32(val), 3);
    var hi, lo := ((val >> 16) & 0xff) as bv8, (val & 0xffff) as bv16;
    Parts24(val);
    StoredParts(dst[..], at, Wide32(val), Wide8(hi), 1, Wide16(lo), 2);
    OneByte(hi);
    PutLe16(lo, dst, at);
    WrittenOne(dst[..], at + 2, hi);
    dst[at + 2] := hi;
  }

  method PutLe32(val: bv32, dst: array<byte>, at: nat)
    requires at + 4 <= dst.Length
    modifies dst
    ensures dst[..] == Written(old(dst[..]), at, LeBytes(Wide32(val), 4))
  {
    hide ByteAt;
    var hi, lo := ((val >> 16) & 0xffff) as bv16, (val & 0xffff) as bv16;
    Parts32(val);
    StoredParts(dst[..], at, Wide32(val), Wide16(hi), 2, Wide16(lo), 2);
    PutLe16(lo, dst, at);
    PutLe16(hi, dst, at + 2);
  }

  method PutLe48(val: bv64, dst: array<byte>, at: nat)
    requires at + 6 <= dst.Length
    modifies dst
    ensures dst[..] == Written(old(dst[..]), at, LeBytes(val, 6))
  {
    hide ByteAt;
    var hi, lo := ((val >> 32) & 0xffff) as bv16, (val & 0xffffffff) as bv32;
    Parts48(val);
    StoredParts(dst[..], at, val, Wide16(hi), 2, Wide32(lo), 4);
    PutLe32(lo, dst, at);
    PutLe16(hi, dst, at + 4);
  }

  method PutLe64(val: bv64, dst: array<byte>, at: nat)
    requires at + 8 <= dst.Length
    modifies dst
    ensures dst[..] == Written(old(dst[..]), at, LeBytes(val, 8))
  {
    hide ByteAt;
    var hi, lo := ((val >> 32) & 0xffffffff) as bv32, (val & 0xffffffff) as bv32;
    Parts64(val);
    StoredParts(dst[..], at, val, Wide32(hi), 4, Wide32(lo), 4);
    PutLe32(lo, dst, at);
    PutLe32(hi, dst, at + 4);
  }

  // ----- get -----------------------------------------------------------------------------------------------------

  // The shift-and-or of each width.
  function Glue8(hi: byte, lo: byte): bv16 { (hi as bv16 << 8) | lo as bv16 }
  function Glue8With16(hi: byte, lo: bv16): bv32 { (hi as bv32 << 16) | lo as bv32 }
  function Glue16(hi: bv16, lo: bv16): bv32 { (hi as bv32 << 16) | lo as bv32 }
  function Glue32With16(hi: bv32, lo: bv16): bv64 { (hi as bv64 << 16) | lo as bv64 }
  function Glue32(hi: bv32, lo: bv32): bv64 { (hi as bv64 << 32) | lo as bv64 }

  function GetBe16(src: seq<byte>): bv16
    requires |src| == 2
  {
    Glue8(src[0], src[1])
  }

  function GetBe24(src: seq<byte>): bv32
    requires |src| == 3
  {
    Glue8With16(src[0], GetBe16(src[1..]))
  }

  function GetBe32(src: seq<byte>): bv32
    requires |src| == 4
  {
    Glue16(GetBe16(src[..2]), GetBe16(src[2..]))
  }

  function GetBe48(src: seq<byte>): bv64
    requires |src| == 6
  {
    Glue32With16(GetBe32(src[..4]), GetBe16(src[4..]))
  }

  function GetBe64(src: seq<byte>): bv64
    requires |src| == 8
  {
    Glue32(GetBe32(src[..4]), GetBe32(src[4..]))
  }

  function GetLe16(src: seq<byte>): bv16
    requires |src| == 2
  {
    Glue8(src[1], src[0])
  }

  function GetLe24(src: seq<byte>): bv32
    requires |src| == 3
  {
    Glue8With16(src[2], GetLe16(src[..2]))
  }

  function GetLe32(src: seq<byte>): bv32
    requires |src| == 4
  {
    Glue16(GetLe16(src[2..]), GetLe16(src[..2]))
  }

  function GetLe48(src: seq<byte>): bv64
    requires |src| == 6
  {
    Glue32With16(GetLe32(src[2..]), GetLe16(src[..2]))
  }

  function GetLe64(src: seq<byte>): bv64
    requires |src| == 8
  {
    Glue32(GetLe32(src[4..]), GetLe32(src[..4]))
  }

  /** `v` is the number whose little-endian digits in base 256 are `le`. */
  ghost predicate Decodes(v: bv64, le: seq<byte>) {
    |le| <= 8 && LeBytes(v, 8) == le + seq(8 - |le|, i => 0 as byte)
  }

  lemma NarrowingIsUnique(x: bv16, y: bv16, u: bv32, v: bv32)
    ensures Wide16(x) == Wide16(y) ==> x == y
    ensures Wide32(u) == Wide32(v) ==> u == v
  {
  }

  lemma BytesDetermine(v: bv64, w: bv64)
    requires LeBytes(v, 8) == LeBytes(w, 8)
    ensures v == w
  {
    assert forall i :: 0 <= i < 8 ==> LeBytes(v, 8)[i] == ByteAt(v, i) && LeBytes(w, 8)[i] == ByteAt(w, i);
    SameBytes(v, w);
  }

  lemma SameBytes(v: bv64, w: bv64)
    requires ByteAt(v, 0) == ByteAt(w, 0) && ByteAt(v, 1) == ByteAt(w, 1) && ByteAt(v, 2) == ByteAt(w, 2) && ByteAt(v, 3) == ByteAt(w, 3)
    requires ByteAt(v, 4) == ByteAt(w, 4) && ByteAt(v, 5) == ByteAt(w, 5) && ByteAt(v, 6) == ByteAt(w, 6) && ByteAt(v, 7) == ByteAt(w, 7)
    ensures v == w
  {
  }

  /** `v` is `hi` moved up by `n` bytes with the low `n` bytes of `lo` below it. */
  ghost predicate Glues(v: bv64, hi: bv64, n: nat, lo: bv64)
    requires n <= 8
  {
    (forall i :: 0 <= i < n ==> ByteAt(v, i) == ByteAt(lo, i)) && (forall i :: n <= i < 8 ==> ByteAt(v, i) == ByteAt(hi, i - n))
  }

  lemma Glued8(hi: byte, lo: byte)
    ensures Glues(Wide16(Glue8(hi, lo)), Wide8(hi), 1, Wide8(lo))
  {
  }

  lemma Glued8With16(hi: byte, lo: bv16)
    ensures Glues(Wide32(Glue8With16(hi, lo)), Wide8(hi), 2, Wide16(lo))
  {
  }

  lemma Glued16(hi: bv16, lo: bv16)
    ensures Glues(Wide32(Glue16(hi, lo)), Wide16(hi), 2, Wide16(lo))
  {
  }

  lemma Glued32With16(hi: bv32, lo: bv16)
    ensures Glues(Glue32With16(hi, lo), Wide32(hi), 2, Wide16(lo))
  {
  }

  lemma Glued32(hi: bv32, lo: bv32)
    ensures Glues(Glue32(hi, lo), Wide32(hi), 4, Wide32(lo))
  {
  }

  lemma ByteDecodes(s: seq<byte>)
    requires |s| == 1
    ensures Decodes(Wide8(s[0]), s) && Decodes(Wide8(s[0]), Reversed(s))
  {
  }

  /** A word glued from two decoded parts decodes the digits of both. */
  lemma GluedDecodes(v: bv64, hi: bv64, m: seq<byte>, lo: bv64, n: seq<byte>)
    requires |m| + |n| <= 8 && Decodes(hi, m) && Decodes(lo, n) && Glues(v, hi, |n|, lo)
    ensures Decodes(v, n + m)
  {
    hide ByteAt;
    assert forall i :: 0 <= i < 8 ==> LeBytes(hi, 8)[i] == ByteAt(hi, i) && LeBytes(lo, 8)[i] == ByteAt(lo, i);
  }

  lemma ReversedParts<T>(s: seq<T>, k: nat)
    requires k <= |s|
    ensures Reversed(s[k..]) + Reversed(s[..k]) == Reversed(s)
    ensures s[..k] + s[k..] == s
  {
  }

  lemma Decodes16(s: seq<byte>)
    requires |s| == 2
    ensures Decodes(Wide16(GetBe16(s)), Reversed(s)) && Decodes(Wide16(GetLe16(s)), s)
  {
    hide Wide8, Wide16, Wide32, ByteAt, LeBytes, Decodes, Glues, Reversed, Glue8;
    Glued8(s[0], s[1]);
    Glued8(s[1], s[0]);
    ReversedParts(s, 1);
    ByteDecodes(s[0..1]);
    ByteDecodes(s[1..]);
    ReversedLength(s[..1]);
    ReversedLength(s[1..]);
    GluedDecodes(Wide16(GetBe16(s)), Wide8(s[0]), Reversed(s[..1]), Wide8(s[1]), Reversed(s[1..]));
    GluedDecodes(Wide16(GetLe16(s)), Wide8(s[1]), s[1..], Wide8(s[0]), s[..1]);
  }

  lemma Decodes24(s: seq<byte>)
    requires |s| == 3
    ensures Decodes(Wide32(GetBe24(s)), Reversed(s)) && Decodes(Wide32(GetLe24(s)), s)
  {
    hide Wide8, Wide16, Wide32, ByteAt, LeBytes, Decodes, Glues, Reversed, Glue8With16, GetBe16, GetLe16;
    Glued8With16(s[0], GetBe16(s[1..]));
    Glued8With16(s[2], GetLe16(s[..2]));
    ReversedParts(s, 1);
    ReversedParts(s, 2);
    ByteDecodes(s[0..1]);
    ByteDecodes(s[2..]);
    Decodes16(s[..2]);
    Decodes16(s[1..]);
    ReversedLength(s[..1]);
    ReversedLength(s[1..]);
    GluedDecodes(Wide32(GetBe24(s)), Wide8(s[0]), Reversed(s[..1]), Wide16(GetBe16(s[1..])), Reversed(s[1..]));
    GluedDecodes(Wide32(GetLe24(s)), Wide8(s[2]), s[2..], Wide16(GetLe16(s[..2])), s[..2]);
  }

  lemma Decodes32(s: seq<byte>)
    requires |s| == 4
    ensures Decodes(Wide32(GetBe32(s)), Reversed(s)) && Decodes(Wide32(GetLe32(s)), s)
  {
    hide Wide8, Wide16, Wide32, ByteAt, LeBytes, Decodes, Glues, Reversed, Glue16, GetBe16, GetLe16;
    Glued16(GetBe16(s[..2]), GetBe16(s[2..]));
    Glued16(GetLe16(s[2..]), GetLe16(s[..2]));
    ReversedParts(s, 2);
    Decodes16(s[..2]);
    Decodes16(s[2..]);
    ReversedLength(s[..2]);
    ReversedLength(s[2..]);
    GluedDecodes(Wide32(GetBe32(s)), Wide16(GetBe16(s[..2])), Reversed(s[..2]), Wide16(GetBe16(s[2..])), Reversed(s[2..]));
    GluedDecodes(Wide32(GetLe32(s)), Wide16(GetLe16(s[2..])), s[2..], Wide16(GetLe16(s[..2])), s[..2]);
  }

  lemma Decodes48(s: seq<byte>)
    requires |s| == 6
    ensures Decodes(GetBe48(s), Reversed(s)) && Decodes(GetLe48(s), s)
  {
    hide Wide8, Wide16, Wide32, ByteAt, LeBytes, Decodes, Glues, Reversed, Glue32With16, GetBe16, GetLe16, GetBe32, GetLe32;
    Glued32With16(GetBe32(s[..4]), GetBe16(s[4..]));
    Glued32With16(GetLe32(s[2..]), GetLe16(s[..2]));
    ReversedParts(s, 2);
    ReversedParts(s, 4);
    Decodes16(s[..2]);
    Decodes16(s[4..]);
    Decodes32(s[..4]);
    Decodes32(s[2..]);
    ReversedLength(s[..4]);
    ReversedLength(s[4..]);
    GluedDecodes(GetBe48(s), Wide32(GetBe32(s[..4])), Reversed(s[..4]), Wide16(GetBe16(s[4..])), Reversed(s[4..]));
    GluedDecodes(GetLe48(s), Wide32(GetLe32(s[2..])), s[2..], Wide16(GetLe16(s[..2])), s[..2]);
  }

  lemma Decodes64(s: seq<byte>)
    requires |s| == 8
    ensures Decodes(GetBe64(s), Reversed(s)) && Decodes(GetLe64(s), s)
  {
    hide Wide8, Wide16, Wide32, ByteAt, LeBytes, Decodes, Glues, Reversed, Glue32, GetBe32, GetLe32;
    Glued32(GetBe32(s[..4]), GetBe32(s[4..]));
    Glued32(GetLe32(s[4..]), GetLe32(s[..4]));
    ReversedParts(s, 4);
    Decodes32(s[..4]);
    Decodes32(s[4..]);
    ReversedLength(s[..4]);
    ReversedLength(s[4..]);
    GluedDecodes(GetBe64(s), Wide32(GetBe32(s[..4])), Reversed(s[..4]), Wide32(GetBe32(s[4..])), Reversed(s[4..]));
    GluedDecodes(GetLe64(s), Wide32(GetLe32(s[4..])), s[4..], Wide32(GetLe32(s[..4])), s[..4]);
  }

  // ----- round trips ---------------------------------------------------------------------------------------------

  /** Encoding what was decoded gives the bytes back. */
  lemma EncodesBack(v: bv64, s: seq<byte>)
    requires |s| <= 8
    ensures Decodes(v, s) ==> LeBytes(v, |s|) == s
    ensures Decodes(v, Reversed(s)) ==> BeBytes(v, |s|) == s
  {
    hide ByteAt;
    assert LeBytes(v, |s|) == LeBytes(v, 8)[..|s|];
    ReversedTwice(s);
  }

  /** `w` keeps the low `n` bytes of `x` and nothing else. */
  ghost predicate Cuts(w: bv64, x: bv64, n: nat)
    requires n <= 8
  {
    (forall i :: 0 <= i < n ==> ByteAt(w, i) == ByteAt(x, i)) && (forall i :: n <= i < 8 ==> ByteAt(w, i) == 0)
  }

  lemma MasksCut(x: bv16, y: bv32, z: bv64)
    ensures Cuts(Wide16(x), Wide16(x), 2)
    ensures Cuts(Wide32(y & 0xff_ffff), Wide32(y), 3)
    ensures Cuts(Wide32(y), Wide32(y), 4)
    ensures Cuts(z & 0xffff_ffff_ffff, z, 6)
    ensures Cuts(z, z, 8)
  {
  }

  /** Decoding what was encoded gives the word cut to its width. */
  lemma DecodesBack(x: bv64, n: nat, w: bv64, be: bv64, le: bv64)
    requires n <= 8 && Cuts(w, x, n) && Decodes(be, Reversed(BeBytes(x, n))) && Decodes(le, LeBytes(x, n))
    ensures be == w && le == w
  {
    hide ByteAt;
    ReversedTwice(LeBytes(x, n));
    assert LeBytes(w, 8) == LeBytes(x, n) + seq(8 - n, i => 0 as byte);
    BytesDetermine(le, w);
    BytesDetermine(be, w);
  }

  lemma RoundTrip16(x: bv16, s: seq<byte>)
    requires |s| == 2
    ensures |BeBytes(Wide16(x), 2)| == |LeBytes(Wide16(x), 2)| == 2
    ensures GetBe16(BeBytes(Wide16(x), 2)) == x && GetLe16(LeBytes(Wide16(x), 2)) == x
    ensures BeBytes(Wide16(GetBe16(s)), 2) == s && LeBytes(Wide16(GetLe16(s)), 2) == s
  {
    hide *;
    EncodedLength(Wide16(x), 2);
    Decodes16(s);
    EncodesBack(Wide16(GetBe16(s)), s);
    EncodesBack(Wide16(GetLe16(s)), s);
    ghost var b, l := BeBytes(Wide16(x), 2), LeBytes(Wide16(x), 2);
    Decodes16(b);
    Decodes16(l);
    MasksCut(x, 0, 0);
    DecodesBack(Wide16(x), 2, Wide16(x), Wide16(GetBe16(b)), Wide16(GetLe16(l)));
    NarrowingIsUnique(GetBe16(b), x, 0, 0);
    NarrowingIsUnique(GetLe16(l), x, 0, 0);
  }

  /** A 24-bit value travels in a 32-bit word; its top byte is not stored. */
  lemma RoundTrip24(x: bv32, s: seq<byte>)
    requires |s| == 3
    ensures |BeBytes(Wide32(x), 3)| == |LeBytes(Wide32(x), 3)| == 3
    ensures GetBe24(BeBytes(Wide32(x), 3)) == x & 0xff_ffff && GetLe24(LeBytes(Wide32(x), 3)) == x & 0xff_ffff
    ensures BeBytes(Wide32(GetBe24(s)), 3) == s && LeBytes(Wide32(GetLe24(s)), 3) == s
  {
    hide *;
    EncodedLength(Wide32(x), 3);
    Decodes24(s);
    EncodesBack(Wide32(GetBe24(s)), s);
    EncodesBack(Wide32(GetLe24(s)), s);
    ghost var b, l := BeBytes(Wide32(x), 3), LeBytes(Wide32(x), 3);
    Decodes24(b);
    Decodes24(l);
    MasksCut(0, x, 0);
    DecodesBack(Wide32(x), 3, Wide32(x & 0xff_ffff), Wide32(GetBe24(b)), Wide32(GetLe24(l)));
    NarrowingIsUnique(0, 0, GetBe24(b), x & 0xff_ffff);
    NarrowingIsUnique(0, 0, GetLe24(l), x & 0xff_ffff);
  }

  lemma RoundTrip32(x: bv32, s: seq<byte>)
    requires |s| == 4
    ensures |BeBytes(Wide32(x), 4)| == |LeBytes(Wide32(x), 4)| == 4
    ensures GetBe32(BeBytes(Wide32(x), 4)) == x && GetLe32(LeBytes(Wide32(x), 4)) == x
    ensures BeBytes(Wide32(GetBe32(s)), 4) == s && LeBytes(Wide32(GetLe32(s)), 4) == s
  {
    hide *;
    EncodedLength(Wide32(x), 4);
    Decodes32(s);
    EncodesBack(Wide32(GetBe32(s)), s);
    EncodesBack(Wide32(GetLe32(s)), s);
    ghost var b, l := BeBytes(Wide32(x), 4), LeBytes(Wide32(x), 4);
    Decodes32(b);
    Decodes32(l);
    MasksCut(0, x, 0);
    DecodesBack(Wide32(x), 4, Wide32(x), Wide32(GetBe32(b)), Wide32(GetLe32(l)));
    NarrowingIsUnique(0, 0, GetBe32(b), x);
    NarrowingIsUnique(0, 0, GetLe32(l), x);
  }

  /** Stored as 16 + 32 bits, read as 32 + 16 bits. */
  lemma RoundTrip48(x: bv64, s: seq<byte>)
    requires |s| == 6
    ensures |BeBytes(x, 6)| == |LeBytes(x, 6)| == 6
    ensures GetBe48(BeBytes(x, 6)) == x & 0xffff_ffff_ffff && GetLe48(LeBytes(x, 6)) == x & 0xffff_ffff_ffff
    ensures BeBytes(GetBe48(s), 6) == s && LeBytes(GetLe48(s), 6) == s
  {
    hide *;
    EncodedLength(x, 6);
    Decodes48(s);
    EncodesBack(GetBe48(s), s);
    EncodesBack(GetLe48(s), s);
    ghost var b, l := BeBytes(x, 6), LeBytes(x, 6);
    Decodes48(b);
    Decodes48(l);
    MasksCut(0, 0, x);
    DecodesBack(x, 6, x & 0xffff_ffff_ffff, GetBe48(b), GetLe48(l));
  }

  lemma RoundTrip64(x: bv64, s: seq<byte>)
    requires |s| == 8
    ensures |BeBytes(x, 8)| == |LeBytes(x, 8)| == 8
    ensures GetBe64(BeBytes(x, 8)) == x && GetLe64(LeBytes(x, 8)) == x
    ensures BeBytes(GetBe64(s), 8) == s && LeBytes(GetLe64(s), 8) == s
  {
    hide *;
    EncodedLength(x, 8);
    Decodes64(s);
    EncodesBack(GetBe64(s), s);
    EncodesBack(GetLe64(s), s);
    ghost var b, l := BeBytes(x, 8), LeBytes(x, 8);
    Decodes64(b);
    Decodes64(l);
    MasksCut(0, 0, x);
    DecodesBack(x, 8, x, GetBe64(b), GetLe64(l));
  }

  // ----- byte swaps ----------------------------------------------------------------------------------------------

  function Bswap16(x: bv16): bv16 { ((x >> 8) & 0xff) | ((x & 0xff) << 8) }

  function Bswap24(x: bv32): bv32 { ((x >> 16) & 0xff) | (x & 0xff00) | ((x & 0xff) << 16) }

  function Bswap32(x: bv32): bv32 {
    ((x >> 24) & 0xff) | ((x >> 8) & 0xff00) | ((x & 0xff00) << 8) | ((x & 0xff) << 24)
  }

  function Bswap48(x: bv64): bv64 {
    ((x >> 40) & 0xff) | ((x >> 24) & 0xff00) | ((x >> 8) & 0xff0000) |
    ((x & 0xff0000) << 8) | ((x & 0xff00) << 24) | ((x & 0xff) << 40)
  }

  function Bswap64(x: bv64): bv64 {
    ((x >> 56) & 0xff) | ((x >> 40) & 0xff00) | ((x >> 24) & 0xff0000) | ((x >> 8) & 0xff000000) |
    ((x & 0xff000000) << 8) | ((x & 0xff0000) << 24) | ((x & 0xff00) << 40) | ((x & 0xff) << 56)
  }

  lemma Bswap16Reverses(x: bv16)
    ensures LeBytes(Wide16(Bswap16(x)), 2) == BeBytes(Wide16(x), 2)
    ensures Bswap16(Bswap16(x)) == x
  {
  }

  lemma Bswap24Reverses(x: bv32)
    ensures LeBytes(Wide32(Bswap24(x)), 3) == BeBytes(Wide32(x), 3)
    ensures Bswap24(Bswap24(x)) == x & 0xffffff
  {
  }

  lemma Bswap32Reverses(x: bv32)
    ensures LeBytes(Wide32(Bswap32(x)), 4) == BeBytes(Wide32(x), 4)
    ensures Bswap32(Bswap32(x)) == x
  {
  }

  lemma Bswap48Reverses(x: bv64)
    ensures LeBytes(Bswap48(x), 6) == BeBytes(x, 6)
    ensures Bswap48(Bswap48(x)) == x & 0xffffffffffff
  {
  }

  lemma Bswap64Reverses(x: bv64)
    ensures LeBytes(Bswap64(x), 8) == BeBytes(x, 8)
    ensures Bswap64(Bswap64(x)) == x
  {
  }

  // ----- buffers of any length -----------------------------------------------------------------------------------

  /** `Reversed` written out byte by byte. */
  lemma WrittenReversed(s: seq<byte>, at: nat, x: seq<byte>, r: seq<byte>)
    requires |r| == |s| && at + |x| <= |s|
    requires forall k :: at <= k < at + |x| ==> r[k] == x[|x| - 1 - (k - at)]
    requires forall k :: 0 <= k < |s| && !(at <= k < at + |x|) ==> r[k] == s[k]
    ensures |Reversed(x)| == |x| && r == Written(s, at, Reversed(x))
  {
  }

  /** `sys_mem_swap`. */
  method MemSwap(buf: array<byte>, length: nat)
    requires length <= buf.Length
    modifies buf
    ensures |Reversed(old(buf[..length]))| == length
    ensures buf[..] == Written(old(buf[..]), 0, Reversed(old(buf[..length])))
  {
    hide Written, Reversed;
    var i := 0;
    while i < length / 2
      invariant 0 <= i <= length / 2
      invariant forall k :: 0 <= k < i ==> buf[k] == old(buf[length - 1 - k]) && buf[length - 1 - k] == old(buf[k])
      invariant forall k :: i <= k < length - i ==> buf[k] == old(buf[k])
      invariant forall k :: length <= k < buf.Length ==> buf[k] == old(buf[k])
    {
      var tmp := buf[i];
      buf[i] := buf[length - 1 - i];
      buf[length - 1 - i] := tmp;
      i := i + 1;
    }
    WrittenReversed(old(buf[..]), 0, old(buf[..length]), buf[..]);
  }

  /** `sys_memcpy_swap`: the two areas may lie in one buffer but not overlap. */
  method MemcpySwap(dst: array<byte>, to: nat, src: array<byte>, from: nat, length: nat)
    requires to + length <= dst.Length && from + length <= src.Length
    requires dst == src ==> to + length <= from || from + length <= to
    modifies dst
    ensures |Reversed(old(src[from..from + length]))| == length
    ensures dst[..] == Written(old(dst[..]), to, Reversed(old(src[from..from + length])))
  {
    hide Written, Reversed;
    var pdst, psrc, left := to, from + length - 1, length;
    while left > 0
      invariant 0 <= left <= length && pdst == to + (length - left) && psrc == from + left - 1
      invariant forall k :: to <= k < pdst ==> dst[k] == old(src[from + length - 1 - (k - to)])
      invariant forall k :: 0 <= k < dst.Length && !(to <= k < pdst) ==> dst[k] == old(dst[k])
      invariant forall k :: from <= k < from + length ==> src[k] == old(src[k])
    {
      dst[pdst] := src[psrc];
      pdst, psrc, left := pdst + 1, psrc - 1, left - 1;
    }
    WrittenReversed(old(dst[..]), to, old(src[from..from + length]), dst[..]);
  }

  /** Both loops compute the same reversal, which undoes itself. */
  lemma ReversedTwice<T>(s: seq<T>)
    ensures Reversed(Reversed(s)) == s
  {
  }
}
