/** Decimal text of 64-bit numbers: the digit loop and in-place reversal of sdsll2str. */
module Decimal {
  import opened Bytes

  const LLONG_MAX: int := 0x7FFF_FFFF_FFFF_FFFF
  const LLONG_MIN: int := -0x8000_0000_0000_0000
  const ULLONG_MAX: nat := 0xFFFF_FFFF_FFFF_FFFF
  const SDS_LLSTR_SIZE: nat := 21
  const ZERO: byte := '0' as int
  const MINUS: byte := '-' as int

  // ---- the meaning of decimal text ----

  predicate IsDigit(c: byte) {
    '0' as int <= c <= '9' as int
  }

  predicate AllDigits(t: bytes) {
    forall c <- t :: IsDigit(c)
  }

  /** Non-empty, digits only, no leading zero except in "0". */
  predicate Canonical(t: bytes) {
    t != [] && AllDigits(t) && (|t| > 1 ==> t[0] != '0' as int)
  }

  function ParseNat(t: bytes): nat
    requires AllDigits(t)
  {
    if t == [] then 0
    else
      var low := t[|t| - 1];
      assert low in t;
      10 * ParseNat(t[..|t| - 1]) + (low - '0' as int)
  }

  predicate CanonicalInt(t: bytes) {
    Canonical(t) || (t != [] && t[0] == '-' as int && Canonical(t[1..]) && t[1] != '0' as int)
  }

  function ParseInt(t: bytes): int
    requires CanonicalInt(t)
  {
    if t[0] == '-' as int then 0 - ParseNat(t[1..]) else ParseNat(t)
  }

  function Dec(n: nat): (t: bytes)
    ensures t != []
  {
    if n < 10 then [ZERO + n] else Dec(n / 10) + [ZERO + n % 10]
  }

  function IntText(v: int): bytes {
    if v < 0 then [MINUS] + Dec(-v) else Dec(v)
  }

  /** Printing gives canonical text that parses back to the number ... */
  lemma {:induction false} DecIsExact(n: nat)
    ensures Canonical(Dec(n)) && ParseNat(Dec(n)) == n && (n > 0 ==> Dec(n)[0] != ZERO)
  {
    if n >= 10 {
      DecIsExact(n / 10);
      assert Dec(n)[..|Dec(n)| - 1] == Dec(n / 10);
    }
  }

  /** ... and it is the only canonical text that does. */
  lemma {:induction false} CanonicalIsUnique(t: bytes)
    requires Canonical(t)
    ensures Dec(ParseNat(t)) == t && (t[0] != ZERO ==> ParseNat(t) > 0)
    decreases |t|
  {
    var init := t[..|t| - 1];
    assert t[0] in t && t[|t| - 1] in t;
    if |t| > 1 {
      CanonicalIsUnique(init);
      assert t == init + [t[|t| - 1]];
      var n, low := ParseNat(init), t[|t| - 1] - '0' as int;
      hide ParseNat, Canonical, AllDigits;
      assert ParseNat(t) == 10 * n + low by { hide Dec; }
      assert n > 0 && (10 * n + low) / 10 == n && (10 * n + low) % 10 == low;
    } else {
      assert init == [] && ParseNat(init) == 0;
    }
  }

  lemma IntTextIsExact(v: int)
    ensures CanonicalInt(IntText(v)) && ParseInt(IntText(v)) == v
  {
    DecIsExact(if v < 0 then -v else v);
    if v < 0 {
      assert IntText(v)[1..] == Dec(-v);
    } else {
      assert IntText(v)[0] in IntText(v);
    }
  }

  lemma CanonicalIntIsUnique(t: bytes)
    requires CanonicalInt(t)
    ensures IntText(ParseInt(t)) == t
  {
    assert t[0] in t;
    if t[0] == MINUS {
      CanonicalIsUnique(t[1..]);
    } else {
      CanonicalIsUnique(t);
    }
  }

  // ---- how long it is ----

  function Pow10(k: nat): nat {
    if k == 0 then 1 else 10 * Pow10(k - 1)
  }

  lemma {:induction false} DecLength(n: nat, k: nat)
    requires k > 0 && n < Pow10(k)
    ensures |Dec(n)| <= k
  {
    if n >= 10 {
      DecLength(n / 10, k - 1);
    }
  }

  lemma Pow10Values()
    ensures Pow10(18) == 1_000_000_000_000_000_000
    ensures Pow10(19) == 10_000_000_000_000_000_000 && Pow10(20) == 100_000_000_000_000_000_000
  {
    assert Pow10(4) == 10_000;
    assert Pow10(8) == 10_000 * Pow10(4);
    assert Pow10(12) == 10_000 * Pow10(8);
    assert Pow10(16) == 10_000 * Pow10(12);
    assert Pow10(18) == 100 * Pow10(16);
  }

  lemma {:induction false} DecIsLong(n: nat, k: nat)
    requires n >= Pow10(k)
    ensures |Dec(n)| > k
  {
    if k > 0 {
      DecIsLong(n / 10, k - 1);
    }
  }

  /** LLONG_MIN needs all SDS_LLSTR_SIZE bytes. */
  lemma SizeIsTight()
    ensures |IntText(-0x8000_0000_0000_0000)| + 1 == SDS_LLSTR_SIZE
  {
    Pow10Values();
    DecIsLong(0x8000_0000_0000_0000, 18);
    DecLength(0x8000_0000_0000_0000, 19);
  }

  /** Every value fits with its NUL in SDS_LLSTR_SIZE bytes. */
  lemma TextFits(v: int)
    ensures LLONG_MIN <= v <= LLONG_MAX ==> |IntText(v)| < SDS_LLSTR_SIZE
    ensures 0 <= v <= ULLONG_MAX ==> |Dec(v)| < SDS_LLSTR_SIZE
  {
    Pow10Values();
    if LLONG_MIN <= v <= LLONG_MAX {
      DecLength(if v < 0 then -v else v, 19);
    }
    if 0 <= v <= ULLONG_MAX {
      DecLength(v, 20);
    }
  }

  // ---- the code ----

  function Reversed(t: bytes): (r: bytes)
    ensures |r| == |t| && forall k :: 0 <= k < |t| ==> r[k] == t[|t| - 1 - k]
  {
    seq(|t|, k requires 0 <= k < |t| => t[|t| - 1 - k])
  }

  lemma ReversedBack(t: bytes, u: bytes)
    requires t == Reversed(u)
    ensures u == Reversed(t)
  {
  }

  /** The digit loop: least significant digit first. */
  method PutDigits(s: array<byte>, n: nat) returns (p: nat)
    requires n <= ULLONG_MAX && s.Length >= SDS_LLSTR_SIZE
    modifies s
    ensures p == |Dec(n)| < SDS_LLSTR_SIZE && s[..p] == Reversed(Dec(n))
    ensures forall k :: p <= k < s.Length ==> s[k] == old(s[k])
  {
    TextFits(n);
    var v := n;
    p := 0;
    while true
      invariant p + |Dec(v)| == |Dec(n)| < SDS_LLSTR_SIZE
      invariant Dec(n) == Dec(v) + Reversed(s[..p])
      invariant forall k :: p <= k < s.Length ==> s[k] == old(s[k])
      decreases v
    {
      ghost var low := s[..p];
      s[p] := ZERO + v % 10;
      p := p + 1;
      assert s[..p] == low + [ZERO + v % 10];
      assert Reversed(s[..p]) == [ZERO + v % 10] + Reversed(low);
      if v / 10 == 0 {
        hide Dec;
        ReversedBack(Dec(n), s[..p]);
        return;
      }
      assert v >= 10;
      v := v / 10;
    }
  }

  /** The two pointers that walk inwards and swap. */
  method ReverseInPlace(s: array<byte>, l: nat)
    requires l <= s.Length
    modifies s
    ensures s[..l] == Reversed(old(s[..l]))
    ensures forall k :: l <= k < s.Length ==> s[k] == old(s[k])
  {
    var a, p := 0, l - 1;
    while a < p
      invariant 0 <= a <= l && p == l - 1 - a && a <= p + 1
      invariant forall k :: 0 <= k < a || p < k < l ==> s[k] == old(s[l - 1 - k])
      invariant forall k :: a <= k <= p || l <= k < s.Length ==> s[k] == old(s[k])
    {
      s[a], s[p] := s[p], s[a];
      a, p := a + 1, p - 1;
    }
  }

  /** `*p++ = '-'` behind the reversed digits. */
  method PutMinus(s: array<byte>, p: nat, ghost digits: bytes) returns (p': nat)
    requires p < s.Length && s[..p] == Reversed(digits)
    modifies s
    ensures p' == p + 1 && s[..p'] == Reversed([MINUS] + digits)
    ensures forall k :: p' <= k < s.Length ==> s[k] == old(s[k])
  {
    s[p] := MINUS;
    p' := p + 1;
    assert s[..p'] == Reversed(digits) + [MINUS];
  }

  /** The common end: terminate the reversed text and turn it round. */
  method Finish(s: array<byte>, p: nat, ghost t: bytes)
    requires p < s.Length && s[..p] == Reversed(t)
    modifies s
    ensures s[..p] == t && s[p] == NUL
    ensures forall k :: p < k < s.Length ==> s[k] == old(s[k])
  {
    s[p] := NUL;
    assert s[..p] == Reversed(t);
    ReverseInPlace(s, p);
    assert Reversed(Reversed(t)) == t;
  }

  /** `sdsll2str`. */
  method LlToStr(s: array<byte>, value: int) returns (l: nat)
    requires LLONG_MIN <= value <= LLONG_MAX && s.Length >= SDS_LLSTR_SIZE
    modifies s
    ensures l < SDS_LLSTR_SIZE && s[..l] == IntText(value) && s[l] == NUL
    ensures forall k :: l < k < s.Length ==> s[k] == old(s[k])
  {
    var v: nat;
    if value < 0 {
      // negating LLONG_MIN overflows a long long
      if value != LLONG_MIN { v := -value; } else { v := LLONG_MAX + 1; }
    } else {
      v := value;
    }
    TextFits(value);
    l := PutDigits(s, v);
    if value < 0 {
      l := PutMinus(s, l, Dec(v));
    }
    Finish(s, l, IntText(value));
  }

  /** `sdsull2str`. */
  method UllToStr(s: array<byte>, value: nat) returns (l: nat)
    requires value <= ULLONG_MAX && s.Length >= SDS_LLSTR_SIZE
    modifies s
    ensures l < SDS_LLSTR_SIZE && s[..l] == Dec(value) && s[l] == NUL
    ensures forall k :: l < k < s.Length ==> s[k] == old(s[k])
  {
    l := PutDigits(s, value);
    Finish(s, l, Dec(value));
  }
}
