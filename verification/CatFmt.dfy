/** sdscatfmt: the format interpreter against a recursive renderer. */
module CatFmt {
  import opened Bytes
  import opened SdsHeader
  import opened SdsLayout
  import opened SdsString
  import opened Decimal

  /** A variadic argument: C string buffer, sds text, signed or unsigned number. */
  datatype Arg = CString(buf: bytes) | SdsText(t: bytes) | Signed(v: int) | Unsigned(u: nat)

  /** The six directives that take an argument, and what stands for itself. */
  datatype Directive = LowerS | UpperS | LowerI | UpperI | LowerU | UpperU | Verbatim

  function DirectiveOf(c: byte): Directive {
    if c == 's' as int then LowerS
    else if c == 'S' as int then UpperS
    else if c == 'i' as int then LowerI
    else if c == 'I' as int then UpperI
    else if c == 'u' as int then LowerU
    else if c == 'U' as int then UpperU
    else Verbatim
  }

  /** `va_arg` reads the type the directive names. */
  predicate Matches(d: Directive, a: Arg) {
    match d
    case LowerS => a.CString? && NUL in a.buf
    case UpperS => a.SdsText?
    case LowerI => a.Signed? && -0x8000_0000 <= a.v <= 0x7FFF_FFFF
    case UpperI => a.Signed? && LLONG_MIN <= a.v <= LLONG_MAX
    case LowerU => a.Unsigned? && a.u <= 0xFFFF_FFFF
    case UpperU => a.Unsigned? && a.u <= ULLONG_MAX
    case Verbatim => false
  }

  /** Text `t` shows argument `a`: a C string up to its first NUL, an sds string whole, a number in decimal. */
  ghost predicate Shows(a: Arg, t: bytes) {
    match a
    case CString(buf) => 0 !in t && t + [0] <= buf
    case SdsText(u) => t == u
    case Signed(v) => CanonicalInt(t) && ParseInt(t) == v
    case Unsigned(u) => Canonical(t) && ParseNat(t) == u
  }

  function ArgText(a: Arg): (t: bytes)
    requires a.CString? ==> NUL in a.buf
    ensures Shows(a, t)
  {
    ShowsNumber(a);
    match a
    case CString(buf) => CStr(buf)
    case SdsText(t) => t
    case Signed(v) => IntText(v)
    case Unsigned(u) => Dec(u)
  }

  lemma ShowsNumber(a: Arg)
    ensures a.Signed? ==> CanonicalInt(IntText(a.v)) && ParseInt(IntText(a.v)) == a.v
    ensures a.Unsigned? ==> Canonical(Dec(a.u)) && ParseNat(Dec(a.u)) == a.u
  {
    if a.Signed? {
      IntTextIsExact(a.v);
    }
    if a.Unsigned? {
      DecIsExact(a.u);
    }
  }

  lemma OnlyNul(t: bytes)
    requires 0 !in t
    ensures NUL in t + [0] && CStr(t + [0]) == t
  {
    assert (t + [0])[|t|] == 0;
    assert StrLen(t + [0]) == |t|;
  }

  /** One text at most shows an argument. */
  lemma ShowsOneText(a: Arg, t: bytes, u: bytes)
    requires Shows(a, t) && Shows(a, u)
    ensures t == u
  {
    match a
    case CString(buf) =>
      StrLenOfPrefix(t + [0], buf);
      StrLenOfPrefix(u + [0], buf);
      OnlyNul(t);
      OnlyNul(u);
    case Signed(_) =>
      CanonicalIntIsUnique(t);
      CanonicalIntIsUnique(u);
    case Unsigned(_) =>
      CanonicalIsUnique(t);
      CanonicalIsUnique(u);
    case _ =>
  }

  /** Bytes of format text taken by its first item: two for an escape. */
  function Skip(f: bytes): (n: nat)
    requires f != []
    ensures 1 <= n <= |f|
  {
    if f[0] == PERCENT && |f| > 1 then 2 else 1
  }

  predicate TakesArg(f: bytes) {
    |f| > 1 && f[0] == PERCENT && !DirectiveOf(f[1]).Verbatim?
  }

  /** Text of the first item: `%%` and unknown escapes give their second byte, a lone `%` at the end nothing. */
  function First(f: bytes, args: seq<Arg>): bytes
    requires f != []
    requires TakesArg(f) ==> args != [] && Matches(DirectiveOf(f[1]), args[0])
  {
    if f[0] != PERCENT then [f[0]]
    else if |f| == 1 then []
    else if TakesArg(f) then ArgText(args[0])
    else [f[1]]
  }

  /** The arguments fit the directives of format text `f`, in order; extra ones are ignored. */
  predicate WellTyped(f: bytes, args: seq<Arg>)
    decreases |f|
  {
    if f == [] then true
    else if TakesArg(f) then
      args != [] && Matches(DirectiveOf(f[1]), args[0]) && WellTyped(f[Skip(f)..], args[1..])
    else WellTyped(f[Skip(f)..], args)
  }

  /** The text a format stands for. */
  function Render(f: bytes, args: seq<Arg>): bytes
    requires WellTyped(f, args)
    decreases |f|
  {
    if f == [] then []
    else First(f, args) + Render(f[Skip(f)..], if TakesArg(f) then args[1..] else args)
  }

  /** Text `t` with every `%` doubled, in front of a format `f`. */
  function Escaped(t: bytes, f: bytes): bytes {
    if t == [] then f else (if t[0] == PERCENT then [PERCENT, PERCENT] else [t[0]]) + Escaped(t[1..], f)
  }

  /** Any text at all can be passed through a format by doubling its percent signs. */
  lemma {:induction false} EscapedRendersBack(t: bytes, f: bytes, args: seq<Arg>)
    requires WellTyped(f, args)
    ensures WellTyped(Escaped(t, f), args) && Render(Escaped(t, f), args) == t + Render(f, args)
  {
    hide Render, WellTyped;
    if t == [] {
      assert t + Render(f, args) == Render(f, args);
    } else {
      EscapedRendersBack(t[1..], f, args);
      LiteralItem(if t[0] == PERCENT then [PERCENT, PERCENT] else [t[0]], Escaped(t[1..], f), args);
      assert t + Render(f, args) == [t[0]] + (t[1..] + Render(f, args));
    }
  }

  lemma LiteralItem(head: bytes, f: bytes, args: seq<Arg>)
    requires WellTyped(f, args) && (head == [PERCENT, PERCENT] || (|head| == 1 && head[0] != PERCENT))
    ensures WellTyped(head + f, args) && Render(head + f, args) == [head[0]] + Render(f, args)
  {
    var g := head + f;
    assert Skip(g) == |head| && g[Skip(g)..] == f;
  }

  /** What the argument taken by `%c` has to be. */
  predicate Fits(c: byte, a: Arg) {
    || (c == 's' as int && a.CString? && 0 in a.buf)
    || (c == 'S' as int && a.SdsText?)
    || (c == 'i' as int && a.Signed? && -0x8000_0000 <= a.v < 0x8000_0000)
    || (c == 'I' as int && a.Signed? && -0x8000_0000_0000_0000 <= a.v < 0x8000_0000_0000_0000)
    || (c == 'u' as int && a.Unsigned? && a.u < 0x1_0000_0000)
    || (c == 'U' as int && a.Unsigned? && a.u < 0x1_0000_0000_0000_0000)
  }

  predicate IsDirective(c: byte) {
    c in {'s' as int, 'S' as int, 'i' as int, 'I' as int, 'u' as int, 'U' as int}
  }

  /** A directive in front of any format takes the next argument and prints the text that shows it. */
  lemma DirectiveRenders(c: byte, f: bytes, args: seq<Arg>, t: bytes)
    requires IsDirective(c)
    ensures var g := ['%' as int, c] + f;
            && (WellTyped(g, args) <==> args != [] && Fits(c, args[0]) && WellTyped(f, args[1..]))
            && (WellTyped(g, args) && Shows(args[0], t) ==> Render(g, args) == t + Render(f, args[1..]))
  {
    hide Shows, Canonical, CanonicalInt;
    var g := ['%' as int, c] + f;
    assert Skip(g) == 2 && g[2..] == f && g[1] == c;
    if args != [] && Fits(c, args[0]) {
      assert Shows(args[0], ArgText(args[0]));
      if Shows(args[0], t) {
        ShowsOneText(args[0], t, ArgText(args[0]));
      }
    }
  }

  /** Any other byte behind '%' stands for itself and takes no argument; a '%' at the very end prints nothing. */
  lemma OtherItemsRender(c: byte, f: bytes, args: seq<Arg>)
    ensures var g := ['%' as int, c] + f;
            !IsDirective(c) ==>
              && (WellTyped(g, args) <==> WellTyped(f, args))
              && (WellTyped(g, args) ==> Render(g, args) == [c] + Render(f, args))
    ensures var g := [c] + f;
            c != '%' as int ==>
              && (WellTyped(g, args) <==> WellTyped(f, args))
              && (WellTyped(g, args) ==> Render(g, args) == [c] + Render(f, args))
    ensures WellTyped(['%' as int], args) && Render(['%' as int], args) == []
    ensures WellTyped([], args) && Render([], args) == []
  {
    var g, h := ['%' as int, c] + f, [c] + f;
    assert g[2..] == f && h[1..] == f;
    assert ['%' as int][1..] == [];
  }

  /** `memcpy(s+i, t, |t|)` and `sdsinclen`, with `i == sdslen(s)`. */
  method Put(b: Sds, i: nat, t: bytes)
    requires b.Sound() && i == b.Len() && |t| <= b.Avail()
    modifies b.mem
    ensures b.Sound() && b.Text() == old(b.Text()) + t
  {
    AllocIsAvailPlusLen(b.mem[..b.s]);
    b.Write(i, t);
    b.IncLen(|t|);
  }

  /** One directive with its argument. */
  method PutArg(b: Sds, i: nat, next: byte, a: Arg) returns (l: nat)
    requires b.Sound() && i == b.Len() && Matches(DirectiveOf(next), a)
    requires b.Avail() < |ArgText(a)| ==> CanAlloc(i + |ArgText(a)|)
    modifies b, b.mem
    ensures b.Sound() && (b.mem == old(b.mem) || fresh(b.mem))
    ensures b.Text() == old(b.Text()) + ArgText(a) && l == |ArgText(a)|
    ensures |old(b.Text())| <= |b.Text()| && Shows(a, b.Text()[|old(b.Text())|..])
  {
    hide Shows, IsHeader, TypeOf, LenOf, AllocOf, AvailOf, IntText, Dec;
    var str;
    match a {
      case CString(buf) => str := buf[..StrLen(buf)];
      case SdsText(t) => str := t;
      case Signed(v) =>
        var num := new byte[SDS_LLSTR_SIZE];
        l := LlToStr(num, v);
        str := num[..l];
      case Unsigned(u) =>
        var num := new byte[SDS_LLSTR_SIZE];
        l := UllToStr(num, u);
        str := num[..l];
    }
    l := |str|;
    if b.Avail() < l {
      b.MakeRoomFor(l);
    }
    Put(b, i, str);
  }

  /** One turn of the loop: the item at `f`, and where that leaves the format, the text and the arguments. */
  method PutItem(b: Sds, fmt: bytes, f: nat, ghost ft: bytes, i: nat, args: seq<Arg>)
    returns (f': nat, i': nat, args': seq<Arg>)
    requires NUL in fmt && f < StrLen(fmt) && ft == CStr(fmt)[f..] != [] && b.Sound() && i == b.Len()
    requires WellTyped(ft, args) && CanAlloc(i + |First(ft, args)| + 1)
    modifies b, b.mem
    ensures b.Sound() && (b.mem == old(b.mem) || fresh(b.mem)) && i' == b.Len()
    ensures b.Text() == old(b.Text()) + First(ft, args)
    ensures f' == f + Skip(ft) && args' == if TakesArg(ft) then args[1..] else args
  {
    hide IsHeader, TypeOf, LenOf, AllocOf, AvailOf;
    assert ft[0] == fmt[f] && (if |ft| > 1 then ft[1] == fmt[f + 1] else fmt[f + 1] == NUL);
    f', i', args' := f, i, args;
    if b.Avail() == 0 {
      b.MakeRoomFor(1);
    }
    if fmt[f] == PERCENT {
      var next := fmt[f + 1];
      if next != NUL {
        f' := f' + 1;
        if DirectiveOf(next).Verbatim? {
          Put(b, i, [next]);
          i' := i + 1;
        } else {
          var l := PutArg(b, i, next, args[0]);
          i', args' := i + l, args[1..];
        }
      }
    } else {
      Put(b, i, [fmt[f]]);
      i' := i + 1;
    }
    f' := f' + 1;
  }

  /** `s[i] = '\0'` at the end. */
  method Terminate(b: Sds, i: nat)
    requires b.Sound() && i == b.Len()
    modifies b.mem
    ensures b.Valid() && b.Text() == old(b.Text())
  {
    b.Write(i, [NUL]);
  }

  /** The loop over the format. */
  method PutItems(b: Sds, fmt: bytes, initlen: nat, args: seq<Arg>) returns (i: nat)
    requires b.Sound() && initlen == b.Len() && NUL in fmt && WellTyped(CStr(fmt), args)
    requires CanAlloc(initlen + |Render(CStr(fmt), args)| + 1)
    modifies b, b.mem
    ensures b.Sound() && (b.mem == old(b.mem) || fresh(b.mem)) && i == b.Len()
    ensures b.Text() == old(b.Text()) + Render(CStr(fmt), args)
  {
    ghost var rest, t := CStr(fmt), b.Text();
    ghost var all := t + Render(rest, args);
    var f: nat, ap := 0, args;
    i := initlen;
    while fmt[f] != NUL
      invariant f <= StrLen(fmt) && rest == CStr(fmt)[f..]
      invariant b.Sound() && (b.mem == old(b.mem) || fresh(b.mem)) && i == b.Len() && t == b.Text()
      invariant WellTyped(rest, ap) && all == t + Render(rest, ap)
      decreases |rest|
    {
      assert rest[0] == fmt[f];
      ItemStep(t, rest, ap, |all|);
      f, i, ap := PutItem(b, fmt, f, rest, i, ap);
      rest, t := rest[Skip(rest)..], b.Text();
    }
    assert rest == [];
  }

  /** `sdscatfmt`. */
  method CatFmt(b: Sds, fmt: bytes, args: seq<Arg>)
    requires b.Valid() && NUL in fmt && WellTyped(CStr(fmt), args)
    requires CanAlloc(2 * b.Len() + 2 * StrLen(fmt))
    requires CanAlloc(b.Len() + |Render(CStr(fmt), args)| + 1)
    modifies b, b.mem
    ensures b.Valid() && (b.mem == old(b.mem) || fresh(b.mem))
    ensures b.Text() == old(b.Text()) + Render(CStr(fmt), args)
  {
    hide Render, WellTyped, IsHeader, TypeOf, LenOf, AllocOf, AvailOf;
    var initlen := b.Len();
    b.MakeRoomFor(initlen + StrLen(fmt) * 2);
    var i := PutItems(b, fmt, initlen, args);
    Terminate(b, i);
  }

  lemma ItemStep(t: bytes, f: bytes, args: seq<Arg>, total: nat)
    requires f != [] && WellTyped(f, args) && |t| + |Render(f, args)| == total && CanAlloc(total + 1)
    ensures CanAlloc(|t| + |First(f, args)| + 1)
    ensures var args' := if TakesArg(f) then args[1..] else args;
            && WellTyped(f[Skip(f)..], args')
            && t + Render(f, args) == (t + First(f, args)) + Render(f[Skip(f)..], args')
  {
    hide First, Skip, Matches;
    var rest := Render(f[Skip(f)..], if TakesArg(f) then args[1..] else args);
    assert Render(f, args) == First(f, args) + rest;
    assert t + (First(f, args) + rest) == (t + First(f, args)) + rest;
  }
}
