/**
 The five packed sds headers as the bytes in front of the text. Types 8 to 64
 store `len`, `alloc` (little-endian, 1, 2, 4 or 8 bytes each) and a flags byte;
 type 5 is a flags byte alone that keeps the length in its upper five bits.
 */
module SdsHeader {
  import opened Bytes

  type HdrType = t: int | 0 <= t <= 4

  const TYPE_5: HdrType := 0
  const TYPE_8: HdrType := 1
  const TYPE_16: HdrType := 2
  const TYPE_32: HdrType := 3
  const TYPE_64: HdrType := 4
  const SIZE_MAX: nat := 0xFFFF_FFFF_FFFF_FFFF

  /** Width in bytes of the `len` and `alloc` fields. */
  function Width(t: HdrType): nat {
    if t == TYPE_5 then 0
    else if t == TYPE_8 then 1
    else if t == TYPE_16 then 2
    else if t == TYPE_32 then 4
    else 8
  }

  function HdrSize(t: HdrType): nat {
    2 * Width(t) + 1
  }

  /** The largest length a header of type `t` can express. */
  function MaxLen(t: HdrType): nat {
    if t == TYPE_5 then 31
    else if t == TYPE_8 then 0xFF
    else if t == TYPE_16 then 0xFFFF
    else if t == TYPE_32 then 0xFFFF_FFFF
    else SIZE_MAX
  }

  function ReqType(size: nat): HdrType {
    if size < 0x20 then TYPE_5
    else if size < 0x100 then TYPE_8
    else if size < 0x1_0000 then TYPE_16
    else if size < 0x1_0000_0000 then TYPE_32
    else TYPE_64
  }

  lemma ReqTypeIsLeast(size: nat)
    requires size <= SIZE_MAX
    ensures forall t: HdrType :: ReqType(size) <= t <==> size <= MaxLen(t)
  {
  }

  // ---- little-endian fields ----

  function ToLE(n: nat, w: nat): (r: bytes)
    ensures |r| == w
  {
    if w == 0 then [] else [n % 256] + ToLE(n / 256, w - 1)
  }

  function FromLE(b: bytes): nat {
    if b == [] then 0 else b[0] + 256 * FromLE(b[1..])
  }

  function Pow256(w: nat): (p: nat)
    ensures p >= 1
  {
    if w == 0 then 1 else 256 * Pow256(w - 1)
  }

  /** A field of `w` bytes stores its value modulo 256^w. */
  lemma {:induction false} FieldTruncates(n: nat, w: nat)
    ensures FromLE(ToLE(n, w)) == n % Pow256(w)
  {
    if w > 0 {
      var m, p := n / 256, Pow256(w - 1);
      FieldTruncates(m, w - 1);
      assert ToLE(n, w)[1..] == ToLE(m, w - 1);
      ModSplit(n, p);
    }
  }

  lemma ModSplit(n: nat, p: nat)
    requires p >= 1
    ensures n % (256 * p) == n % 256 + 256 * ((n / 256) % p)
  {
    var m := n / 256;
    var q, r := m / p, m % p;
    var low := n % 256 + 256 * r;
    assert n == n % 256 + 256 * m;
    assert m == p * q + r;
    assert n == (256 * p) * q + low by {
      assert 256 * (p * q) == (256 * p) * q;
    }
    assert 0 <= low < 256 * p by { assert r <= p - 1; }
    ModUnique(n, 256 * p, q, low);
  }

  lemma ModUnique(n: nat, d: nat, q: nat, r: nat)
    requires d > 0 && r < d && n == d * q + r
    ensures n % d == r
  {
    var q' := n / d;
    var k := q - q';
    assert d * k == n % d - r by {
      assert n == d * q' + n % d;
      assert d * k == d * q - d * q';
    }
    MulAtLeast(d, k);
    MulAtLeast(d, -k);
  }

  lemma MulAtLeast(d: nat, k: int)
    ensures k >= 1 ==> d * k >= d
    ensures d * -k == -(d * k)
  {
  }

  lemma WidthRange(t: HdrType)
    requires t != TYPE_5
    ensures Pow256(Width(t)) == MaxLen(t) + 1
  {
    assert Pow256(1) == 256;
    assert Pow256(2) == 256 * Pow256(1);
    assert Pow256(3) == 256 * Pow256(2);
    assert Pow256(4) == 256 * Pow256(3);
    assert Pow256(5) == 256 * Pow256(4);
    assert Pow256(6) == 256 * Pow256(5);
    assert Pow256(7) == 256 * Pow256(6);
    assert Pow256(8) == 256 * Pow256(7);
  }

  /** A field of type `t` gives back every value within the type's range. */
  lemma FieldIsExact(n: nat, t: HdrType)
    requires t != TYPE_5 && n <= MaxLen(t)
    ensures FromLE(ToLE(n, Width(t))) == n
  {
    FieldTruncates(n, Width(t));
    WidthRange(t);
  }

  // ---- reading a header ----

  /** The flags byte `s[-1]` names the type, and `h` is as long as that type's header. */
  predicate IsHeader(h: bytes) {
    |h| > 0 && h[|h| - 1] % 8 <= 4 && |h| == HdrSize(h[|h| - 1] % 8)
  }

  function TypeOf(h: bytes): HdrType
    requires IsHeader(h)
  {
    h[|h| - 1] % 8
  }

  function LenOf(h: bytes): nat
    requires IsHeader(h)
  {
    if TypeOf(h) == TYPE_5 then h[0] / 8 else FromLE(h[..Width(TypeOf(h))])
  }

  function AllocOf(h: bytes): nat
    requires IsHeader(h)
  {
    var w := Width(TypeOf(h));
    if TypeOf(h) == TYPE_5 then h[0] / 8 else FromLE(h[w..2 * w])
  }

  /** Type 5 reports no spare room; the others subtract. */
  function AvailOf(h: bytes): int
    requires IsHeader(h)
  {
    if TypeOf(h) == TYPE_5 then 0 else AllocOf(h) - LenOf(h)
  }

  // ---- writing a header ----

  function SetLen(h: bytes, n: nat): (r: bytes)
    requires IsHeader(h)
    ensures IsHeader(r) && TypeOf(r) == TypeOf(h)
  {
    var w := Width(TypeOf(h));
    if TypeOf(h) == TYPE_5 then [(n * 8) % 256]
    else
      var r := ToLE(n, w) + h[w..];
      assert |r| == |h| && r[|h| - 1] == h[|h| - 1];
      r
  }

  function SetAlloc(h: bytes, n: nat): (r: bytes)
    requires IsHeader(h)
    ensures IsHeader(r) && TypeOf(r) == TypeOf(h)
  {
    var w := Width(TypeOf(h));
    if TypeOf(h) == TYPE_5 then h else h[..w] + ToLE(n, w) + h[2 * w..]
  }

  /** `sdsinclen`: read, add, store back in the field's own width; on type 5 the sum is an unsigned char. */
  function IncLen(h: bytes, inc: nat): (r: bytes)
    requires IsHeader(h)
    ensures IsHeader(r) && TypeOf(r) == TypeOf(h)
  {
    SetLen(h, if TypeOf(h) == TYPE_5 then (LenOf(h) + inc) % 256 else LenOf(h) + inc)
  }

  /** `sdssetlen` changes the length alone, except that type 5 has no other field to keep. */
  lemma SetLenDecodes(h: bytes, n: nat)
    requires IsHeader(h) && n <= MaxLen(TypeOf(h))
    ensures LenOf(SetLen(h, n)) == n
    ensures AllocOf(SetLen(h, n)) == if TypeOf(h) == TYPE_5 then n else AllocOf(h)
  {
    hide ToLE, FromLE;
    var t := TypeOf(h);
    if t != TYPE_5 {
      var w, r := Width(t), SetLen(h, n);
      FieldIsExact(n, t);
      assert r == ToLE(n, w) + h[w..];
      assert r[..w] == ToLE(n, w);
      assert r[w..2 * w] == h[w..2 * w];
    }
  }

  /** `sdssetalloc` changes the allocation alone; on type 5 it is forgotten. */
  lemma SetAllocDecodes(h: bytes, n: nat)
    requires IsHeader(h) && n <= MaxLen(TypeOf(h))
    ensures LenOf(SetAlloc(h, n)) == LenOf(h)
    ensures AllocOf(SetAlloc(h, n)) == if TypeOf(h) == TYPE_5 then LenOf(h) else n
  {
    var t := TypeOf(h);
    if t != TYPE_5 {
      var w, r := Width(t), SetAlloc(h, n);
      FieldIsExact(n, t);
      assert r[..w] == h[..w];
      assert r[w..2 * w] == ToLE(n, w);
    }
  }

  lemma IncLenDecodes(h: bytes, inc: nat)
    requires IsHeader(h) && LenOf(h) + inc <= MaxLen(TypeOf(h))
    ensures IncLen(h, inc) == SetLen(h, LenOf(h) + inc)
    ensures LenOf(IncLen(h, inc)) == LenOf(h) + inc
    ensures AllocOf(IncLen(h, inc)) == if TypeOf(h) == TYPE_5 then LenOf(h) + inc else AllocOf(h)
  {
    hide ToLE, FromLE;
    SetLenDecodes(h, LenOf(h) + inc);
  }

  /** `sdsalloc = sdsavail + sdslen`, and every field stays within its type. */
  lemma AllocIsAvailPlusLen(h: bytes)
    requires IsHeader(h)
    ensures AllocOf(h) == AvailOf(h) + LenOf(h)
    ensures LenOf(h) <= MaxLen(TypeOf(h)) && AllocOf(h) <= MaxLen(TypeOf(h))
  {
    var w := Width(TypeOf(h));
    if TypeOf(h) != TYPE_5 {
      FromLEBound(h[..w]);
      FromLEBound(h[w..2 * w]);
      WidthRange(TypeOf(h));
    }
  }

  lemma {:induction false} FromLEBound(b: bytes)
    ensures FromLE(b) < Pow256(|b|)
  {
    if b != [] {
      FromLEBound(b[1..]);
    }
  }

  /** The fields byte by byte, as the packed structs lay them out: length, allocation, flags, least significant byte first. */
  lemma HeaderBytes(h: bytes)
    requires IsHeader(h)
    ensures h[|h| - 1] % 8 == TypeOf(h) && |h| == match TypeOf(h) case 0 => 1 case 1 => 3 case 2 => 5 case 3 => 9 case 4 => 17
    ensures TypeOf(h) == 0 ==> LenOf(h) == AllocOf(h) == h[0] / 8
    ensures TypeOf(h) == 1 ==> LenOf(h) == h[0] && AllocOf(h) == h[1]
    ensures TypeOf(h) == 2 ==> LenOf(h) == Word(h[0], h[1]) && AllocOf(h) == Word(h[2], h[3])
    ensures TypeOf(h) == 3 ==>
              && LenOf(h) == Word(h[0], h[1]) + 0x1_0000 * Word(h[2], h[3])
              && AllocOf(h) == Word(h[4], h[5]) + 0x1_0000 * Word(h[6], h[7])
    ensures TypeOf(h) == 4 ==>
              && LenOf(h) == Word(h[0], h[1]) + 0x1_0000 * Word(h[2], h[3])
                             + 0x1_0000_0000 * (Word(h[4], h[5]) + 0x1_0000 * Word(h[6], h[7]))
              && AllocOf(h) == Word(h[8], h[9]) + 0x1_0000 * Word(h[10], h[11])
                               + 0x1_0000_0000 * (Word(h[12], h[13]) + 0x1_0000 * Word(h[14], h[15]))
  {
    hide FromLE;
    var w := Width(TypeOf(h));
    if TypeOf(h) != 0 {
      FieldBytes(h[..w]);
      FieldBytes(h[w..2 * w]);
    }
  }

  function Word(low: byte, high: byte): nat {
    low + 0x100 * high
  }

  lemma FieldBytes(b: bytes)
    ensures |b| == 1 ==> FromLE(b) == b[0]
    ensures |b| == 2 ==> FromLE(b) == Word(b[0], b[1])
    ensures |b| == 4 ==> FromLE(b) == Word(b[0], b[1]) + 0x1_0000 * Word(b[2], b[3])
    ensures |b| == 8 ==> FromLE(b) == Word(b[0], b[1]) + 0x1_0000 * Word(b[2], b[3])
                                      + 0x1_0000_0000 * (Word(b[4], b[5]) + 0x1_0000 * Word(b[6], b[7]))
  {
    if |b| >= 2 {
      TwoBytes(b);
    }
    if |b| >= 4 {
      TwoBytes(b[2..]);
      assert b[2..][2..] == b[4..];
    }
    if |b| == 8 {
      TwoBytes(b[4..]);
      TwoBytes(b[6..]);
      assert b[4..][2..] == b[6..];
    }
  }

  lemma TwoBytes(b: bytes)
    requires |b| >= 2
    ensures FromLE(b) == Word(b[0], b[1]) + 0x1_0000 * FromLE(b[2..])
  {
    assert b[1..][1..] == b[2..];
  }

  /** `MaxLen` is tight: some header of the type holds it, and none holds more. */
  lemma MaxLenIsMax(t: HdrType, h: bytes)
    requires IsHeader(h)
    ensures TypeOf(h) == t ==> LenOf(h) <= MaxLen(t)
    ensures LenOf(Fresh(t, MaxLen(t))) == MaxLen(t)
  {
    AllocIsAvailPlusLen(h);
    if t != TYPE_5 {
      FieldIsExact(MaxLen(t), t);
      assert Fresh(t, MaxLen(t))[..Width(t)] == ToLE(MaxLen(t), Width(t));
    }
  }

  /** A new string gets the least type for its length, but an empty one, made to be appended to, type 8. */
  lemma NewTypeIs(n: nat)
    requires n <= SIZE_MAX
    ensures NewType(0) == 1
    ensures n > 0 ==> forall t: HdrType :: NewType(n) <= t <==> n <= MaxLen(t)
  {
    ReqTypeIsLeast(n);
  }

  /** The header `sdsnewlen` writes: length and allocation both `n`. */
  function Fresh(t: HdrType, n: nat): (h: bytes)
    ensures IsHeader(h) && TypeOf(h) == t
  {
    if t == TYPE_5 then [(n * 8) % 256] else ToLE(n, Width(t)) + ToLE(n, Width(t)) + [t]
  }

  function NewType(n: nat): HdrType {
    if n == 0 then TYPE_8 else ReqType(n)
  }

  /** For every length the chosen layout decodes to what was encoded. */
  lemma FreshDecodes(n: nat)
    requires n <= SIZE_MAX
    ensures var h := Fresh(NewType(n), n); LenOf(h) == n && AllocOf(h) == n && AvailOf(h) == 0
  {
    var t := NewType(n);
    if t != TYPE_5 {
      var w, h := Width(t), Fresh(NewType(n), n);
      FieldIsExact(n, t);
      assert h[..w] == ToLE(n, w) && h[w..2 * w] == ToLE(n, w);
    }
  }
}
