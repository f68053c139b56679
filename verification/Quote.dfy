/** sdscatrepr prints byte strings in quotes; sdssplitargs reads lines of such arguments back. */
module Quote {
  import opened Bytes
  import opened SdsHeader
  import opened SdsLayout
  import opened SdsString
  import opened SplitJoin

  const DQ: byte := '"' as int
  const SQ: byte := '\'' as int
  const BACKSLASH: byte := '\\' as int
  const LOWER_X: byte := 'x' as int
  const BEL: byte := 7
  const BS: byte := 8

  // ---- hexadecimal digits ----

  predicate IsHexDigit(c: byte) {
    '0' as int <= c <= '9' as int || 'a' as int <= c <= 'f' as int || 'A' as int <= c <= 'F' as int
  }

  function HexDigitToInt(c: byte): (n: nat)
    ensures n < 16
  {
    if '0' as int <= c <= '9' as int then c - '0' as int
    else if 'a' as int <= c <= 'f' as int then c - 'a' as int + 10
    else if 'A' as int <= c <= 'F' as int then c - 'A' as int + 10
    else 0
  }

  /** One digit of `%02x`. */
  function HexDigit(n: nat): (c: byte)
    requires n < 16
    ensures IsHexDigit(c) && HexDigitToInt(c) == n
  {
    if n < 10 then '0' as int + n else 'a' as int + n - 10
  }

  // ---- printing ----

  function ReprByte(c: byte): bytes {
    if c == BACKSLASH || c == DQ then [BACKSLASH, c]
    else if c == LF then [BACKSLASH, 'n' as int]
    else if c == CR then [BACKSLASH, 'r' as int]
    else if c == TAB then [BACKSLASH, 't' as int]
    else if c == BEL then [BACKSLASH, 'a' as int]
    else if c == BS then [BACKSLASH, 'b' as int]
    else if IsPrint(c) then [c]
    else [BACKSLASH, LOWER_X, HexDigit(c / 16), HexDigit(c % 16)]
  }

  function ReprBody(p: bytes): bytes {
    if p == [] then [] else ReprByte(p[0]) + ReprBody(p[1..])
  }

  function Repr(p: bytes): bytes {
    [DQ] + ReprBody(p) + [DQ]
  }

  // ---- reading: the tokenizer on the text before the terminator ----

  datatype Mode = Unquoted | InDq | InSq

  datatype Token = Bad | Good(text: bytes, rest: bytes)

  function Cons(c: byte, r: Token): Token {
    match r
    case Bad => Bad
    case Good(text, rest) => Good([c] + text, rest)
  }

  function Unescape(c: byte): byte {
    if c == 'n' as int then LF
    else if c == 'r' as int then CR
    else if c == 't' as int then TAB
    else if c == 'b' as int then BS
    else if c == 'a' as int then BEL
    else c
  }

  predicate EndsUnquoted(c: byte) {
    c == SPACE || c == LF || c == CR || c == TAB
  }

  /** A closing quote at the front of `l` must be followed by a blank or by nothing. */
  function Close(l: bytes): Token
    requires l != []
  {
    if |l| > 1 && !IsSpace(l[1]) then Bad else Good([], l[1..])
  }

  /** The token that `l` continues in mode `m`, and what is left of the line behind it. */
  function Scan(l: bytes, m: Mode): (r: Token)
    ensures r.Good? ==> |r.rest| <= |l| && (l != [] ==> |r.rest| < |l|)
    decreases |l|
  {
    match m
    case InDq =>
      if |l| >= 4 && l[0] == BACKSLASH && l[1] == LOWER_X && IsHexDigit(l[2]) && IsHexDigit(l[3]) then
        Cons(HexDigitToInt(l[2]) * 16 + HexDigitToInt(l[3]), Scan(l[4..], InDq))
      else if |l| >= 2 && l[0] == BACKSLASH then Cons(Unescape(l[1]), Scan(l[2..], InDq))
      else if l == [] then Bad
      else if l[0] == DQ then Close(l)
      else Cons(l[0], Scan(l[1..], InDq))
    case InSq =>
      if |l| >= 2 && l[0] == BACKSLASH && l[1] == SQ then Cons(SQ, Scan(l[2..], InSq))
      else if l == [] then Bad
      else if l[0] == SQ then Close(l)
      else Cons(l[0], Scan(l[1..], InSq))
    case Unquoted =>
      if l == [] then Good([], [])
      else if EndsUnquoted(l[0]) then Good([], l[1..])
      else if l[0] == DQ then Scan(l[1..], InDq)
      else if l[0] == SQ then Scan(l[1..], InSq)
      else Cons(l[0], Scan(l[1..], Unquoted))
  }

  function SkipBlanks(l: bytes): (r: bytes)
    ensures |r| <= |l| && (r != [] ==> !IsSpace(r[0]))
  {
    if l != [] && IsSpace(l[0]) then SkipBlanks(l[1..]) else l
  }

  datatype Args = Failed | Parsed(args: seq<bytes>)

  function Tokenize(l: bytes): Args
    decreases |l|
  {
    var t := SkipBlanks(l);
    if t == [] then Parsed([])
    else
      match Scan(t, Unquoted)
      case Bad => Failed
      case Good(text, rest) =>
        match Tokenize(rest)
        case Failed => Failed
        case Parsed(args) => Parsed([text] + args)
  }

  // ---- the round trip ----

  lemma {:induction false} ScanReadsRepr(p: bytes, rest: bytes)
    requires rest == [] || IsSpace(rest[0])
    ensures Scan(ReprBody(p) + [DQ] + rest, InDq) == Good(p, rest)
    decreases |p|
  {
    hide ReprByte, IsHexDigit;
    if p == [] {
      var l := ReprBody(p) + [DQ] + rest;
      assert l == [DQ] + rest && l[1..] == rest;
    } else {
      ScanReadsRepr(p[1..], rest);
      var tail := ReprBody(p[1..]) + [DQ] + rest;
      assert ReprBody(p) + [DQ] + rest == ReprByte(p[0]) + tail;
      ScanReadsByte(p[0], tail);
      assert [p[0]] + p[1..] == p;
    }
  }

  lemma ScanReadsByte(c: byte, tail: bytes)
    ensures Scan(ReprByte(c) + tail, InDq) == Cons(c, Scan(tail, InDq))
  {
    var h := ReprByte(c);
    var l := h + tail;
    assert l[|h|..] == tail;
    assert l[0] == h[0] && (|h| > 1 ==> l[1] == h[1]);
    if |h| == 4 {
      assert l[2] == h[2] && l[3] == h[3];
    }
  }

  predicate IsBlank(g: bytes) {
    forall c <- g :: IsSpace(c)
  }

  /** Printed arguments, each with the blanks that follow it. */
  function Line(args: seq<bytes>, gaps: seq<bytes>): bytes
    requires |gaps| == |args|
  {
    if args == [] then [] else Repr(args[0]) + gaps[0] + Line(args[1..], gaps[1..])
  }

  /** Blanks only, and at least one between arguments. */
  predicate AreGaps(gaps: seq<bytes>) {
    forall k :: 0 <= k < |gaps| ==> IsBlank(gaps[k]) && (k < |gaps| - 1 ==> gaps[k] != [])
  }

  lemma {:induction false} BlanksAreSkipped(g: bytes, l: bytes)
    requires IsBlank(g)
    ensures Tokenize(g + l) == Tokenize(l)
    decreases |g|
  {
    if g == [] {
      assert g + l == l;
    } else {
      BlanksAreSkipped(g[1..], l);
      assert (g + l)[1..] == g[1..] + l && (g + l)[0] == g[0] && g[0] in g;
    }
  }

  /**
   Any list of byte strings, printed with sdscatrepr one after the other with
   blanks of any kind around and between, is read back by sdssplitargs.
   */
  lemma {:induction false} QuotingRoundTrip(args: seq<bytes>, gaps: seq<bytes>)
    requires |gaps| == |args| && AreGaps(gaps)
    ensures Tokenize(Line(args, gaps)) == Parsed(args)
    decreases |args|
  {
    hide Scan, Repr, Tokenize;
    if args == [] {
      NothingToRead();
    } else {
      var tail := Line(args[1..], gaps[1..]);
      assert forall k :: 0 <= k < |gaps| - 1 ==> gaps[1..][k] == gaps[k + 1];
      QuotingRoundTrip(args[1..], gaps[1..]);
      BlanksAreSkipped(gaps[0], tail);
      var rest := gaps[0] + tail;
      assert rest == [] || IsSpace(rest[0]) by {
        if gaps[0] != [] { assert rest[0] == gaps[0][0] && gaps[0][0] in gaps[0]; }
      }
      assert Repr(args[0]) + gaps[0] + tail == Repr(args[0]) + rest;
      TokenizeOne(args[0], rest);
      assert args == [args[0]] + args[1..];
    }
  }

  lemma NothingToRead()
    ensures Tokenize([]) == Parsed([])
  {
  }

  lemma TokenizeOne(p: bytes, rest: bytes)
    requires rest == [] || IsSpace(rest[0])
    ensures Tokenize(Repr(p) + rest) ==
            match Tokenize(rest) case Failed => Failed case Parsed(args) => Parsed([p] + args)
  {
    hide ReprBody;
    var l := Repr(p) + rest;
    ScanReadsRepr(p, rest);
    assert l[0] == DQ && l[1..] == ReprBody(p) + [DQ] + rest;
    assert SkipBlanks(l) == l;
    assert Scan(l, Unquoted) == Scan(l[1..], InDq);
  }

  function Reprs(args: seq<bytes>): seq<bytes> {
    if args == [] then [] else [Repr(args[0])] + Reprs(args[1..])
  }

  function Spaces(n: nat): (gaps: seq<bytes>)
    ensures |gaps| == n && AreGaps(gaps) && (n > 0 ==> gaps[n - 1] == [])
    ensures forall k :: 0 <= k < n - 1 ==> gaps[k] == [SPACE]
  {
    seq(n, k => if k < n - 1 then [SPACE] else [])
  }

  /** The form a caller writes: print each, join with single spaces, split. */
  lemma {:induction false} JoinedReprsSplitBack(args: seq<bytes>)
    ensures Join(Reprs(args), [SPACE]) == Line(args, Spaces(|args|))
    ensures Tokenize(Join(Reprs(args), [SPACE])) == Parsed(args)
  {
    JoinIsLine(args);
    QuotingRoundTrip(args, Spaces(|args|));
  }

  lemma {:induction false} JoinIsLine(args: seq<bytes>)
    ensures Join(Reprs(args), [SPACE]) == Line(args, Spaces(|args|))
    decreases |args|
  {
    if args != [] {
      JoinIsLine(args[1..]);
      assert Reprs(args)[1..] == Reprs(args[1..]);
      assert Spaces(|args|)[1..] == Spaces(|args| - 1);
      if |args| == 1 {
        assert Reprs(args) == [Repr(args[0])] && Line(args[1..], []) == [];
      }
    }
  }

  /** Printed text is printable, so a C string holds all of it. */
  lemma {:induction false} ReprIsPrintable(p: bytes)
    ensures forall c <- Repr(p) :: IsPrint(c)
  {
    BodyIsPrintable(p);
  }

  lemma {:induction false} BodyIsPrintable(p: bytes)
    ensures forall c <- ReprBody(p) :: IsPrint(c)
  {
    if p != [] {
      BodyIsPrintable(p[1..]);
    }
  }

  lemma {:induction false} LineIsPrintable(args: seq<bytes>, gaps: seq<bytes>)
    requires |gaps| == |args| && AreGaps(gaps)
    ensures forall c <- Line(args, gaps) :: IsPrint(c) || IsSpace(c)
    decreases |args|
  {
    hide Repr;
    if args != [] {
      ReprIsPrintable(args[0]);
      assert forall k :: 0 <= k < |gaps| - 1 ==> gaps[1..][k] == gaps[k + 1];
      LineIsPrintable(args[1..], gaps[1..]);
    }
  }

  /** The printed line as a C string: the terminator behind it is its first NUL, so the code reads all of it. */
  lemma CLineRoundTrip(args: seq<bytes>, gaps: seq<bytes>)
    requires |gaps| == |args| && AreGaps(gaps)
    ensures var line := Line(args, gaps) + [NUL];
            NUL in line && CStr(line) == Line(args, gaps) && Tokenize(CStr(line)) == Parsed(args)
  {
    hide Line, Tokenize;
    var l := Line(args, gaps);
    LineIsPrintable(args, gaps);
    var line := l + [NUL];
    assert line[|l|] == NUL;
    assert forall k :: 0 <= k < |l| ==> line[k] == l[k] && l[k] in l;
    assert StrLen(line) == |l|;
    assert CStr(line) == l;
    QuotingRoundTrip(args, gaps);
  }

  // ---- when a line is refused ----

  /** Where a reader of single bytes stands; `Broken` is past a closing quote with text behind it. */
  datatype State = Between | InWord | InDouble | AfterBackslash | InSingle | AfterSingleBackslash | Closed | Broken

  function Advance(q: State, c: byte): State {
    match q
    case Between =>
      if IsSpace(c) then Between else if c == DQ then InDouble else if c == SQ then InSingle else InWord
    case InWord =>
      if EndsUnquoted(c) then Between else if c == DQ then InDouble else if c == SQ then InSingle else InWord
    case InDouble => if c == BACKSLASH then AfterBackslash else if c == DQ then Closed else InDouble
    case AfterBackslash => InDouble
    case InSingle => if c == BACKSLASH then AfterSingleBackslash else if c == SQ then Closed else InSingle
    case AfterSingleBackslash => if c == BACKSLASH then AfterSingleBackslash else InSingle
    case Closed => if IsSpace(c) then Between else Broken
    case Broken => Broken
  }

  function Walk(q: State, l: bytes): State
    decreases l
  {
    if l == [] then q else Walk(Advance(q, l[0]), l[1..])
  }

  predicate Accepts(q: State) {
    q.Between? || q.InWord? || q.Closed?
  }

  function StateOf(m: Mode): State {
    match m
    case Unquoted => InWord
    case InDq => InDouble
    case InSq => InSingle
  }

  lemma {:induction false} BrokenStays(l: bytes)
    ensures Walk(Broken, l) == Broken
  {
    if l != [] {
      BrokenStays(l[1..]);
    }
  }

  /** The tokenizer, which looks ahead, agrees with the byte-by-byte reader. */
  lemma {:induction false} ScanWalks(l: bytes, m: Mode)
    ensures match Scan(l, m)
            case Bad => !Accepts(Walk(StateOf(m), l))
            case Good(_, rest) => Accepts(Walk(StateOf(m), l)) == Accepts(Walk(Between, rest))
    decreases |l|
  {
    match m {
      case InDq => ScanWalksDq(l);
      case InSq => ScanWalksSq(l);
      case Unquoted =>
        if l != [] && !EndsUnquoted(l[0]) {
          ScanWalks(l[1..], if l[0] == DQ then InDq else if l[0] == SQ then InSq else Unquoted);
        }
    }
  }

  lemma CloseWalks(l: bytes)
    requires l != []
    ensures match Close(l)
            case Bad => !Accepts(Walk(Closed, l[1..]))
            case Good(_, rest) => Accepts(Walk(Closed, l[1..])) == Accepts(Walk(Between, rest))
  {
    if |l| > 1 {
      BrokenStays(l[2..]);
      assert l[1..][1..] == l[2..];
    }
  }

  lemma {:induction false} ScanWalksDq(l: bytes)
    ensures match Scan(l, InDq)
            case Bad => !Accepts(Walk(InDouble, l))
            case Good(_, rest) => Accepts(Walk(InDouble, l)) == Accepts(Walk(Between, rest))
    decreases |l|
  {
    if |l| >= 4 && l[0] == BACKSLASH && l[1] == LOWER_X && IsHexDigit(l[2]) && IsHexDigit(l[3]) {
      ScanWalksDq(l[4..]);
      assert l[1..][1..][1..][1..] == l[4..];
      assert Walk(InDouble, l) == Walk(AfterBackslash, l[1..]) == Walk(InDouble, l[1..][1..]);
      assert Walk(InDouble, l[1..][1..]) == Walk(InDouble, l[1..][1..][1..]) == Walk(InDouble, l[4..]);
    } else if |l| >= 2 && l[0] == BACKSLASH {
      ScanWalksDq(l[2..]);
      assert l[1..][1..] == l[2..];
      assert Walk(InDouble, l) == Walk(AfterBackslash, l[1..]) == Walk(InDouble, l[2..]);
    } else if l != [] && l[0] == DQ {
      CloseWalks(l);
    } else if l != [] {
      ScanWalksDq(l[1..]);
      if l[0] == BACKSLASH {
        assert l[1..] == [];
      }
    }
  }

  lemma {:induction false} ScanWalksSq(l: bytes)
    ensures match Scan(l, InSq)
            case Bad => !Accepts(Walk(InSingle, l))
            case Good(_, rest) => Accepts(Walk(InSingle, l)) == Accepts(Walk(Between, rest))
    decreases |l|
  {
    if |l| >= 2 && l[0] == BACKSLASH && l[1] == SQ {
      ScanWalksSq(l[2..]);
      assert l[1..][1..] == l[2..];
      assert Walk(InSingle, l) == Walk(AfterSingleBackslash, l[1..]) == Walk(InSingle, l[2..]);
    } else if l != [] && l[0] == SQ {
      CloseWalks(l);
    } else if l != [] {
      ScanWalksSq(l[1..]);
      if l[0] == BACKSLASH {
        BackslashIsPlain(l[1..]);
      }
    }
  }

  /** A backslash not followed by a single quote leaves the reader where it was, as far as acceptance goes. */
  lemma BackslashIsPlain(l: bytes)
    requires l == [] || l[0] != SQ
    ensures Accepts(Walk(AfterSingleBackslash, l)) == Accepts(Walk(InSingle, l))
  {
  }

  lemma {:induction false} BlanksWalk(l: bytes)
    ensures Walk(Between, l) == Walk(Between, SkipBlanks(l))
  {
    if l != [] && IsSpace(l[0]) {
      BlanksWalk(l[1..]);
    }
  }

  /**
   sdssplitargs fails exactly when the line ends inside quotes or a closing
   quote is followed by a non-blank.
   */
  lemma {:induction false} FailsIffQuotesAreOff(l: bytes)
    ensures Tokenize(l).Failed? <==> !Accepts(Walk(Between, l))
    decreases |l|
  {
    var t := SkipBlanks(l);
    BlanksWalk(l);
    if t != [] {
      ScanWalks(t, Unquoted);
      assert Walk(Between, t) == Walk(InWord, t);
      match Scan(t, Unquoted) {
        case Bad =>
        case Good(_, rest) => FailsIffQuotesAreOff(rest);
      }
    }
  }

  // ---- the code ----

  /** `sdscatrepr`. */
  method CatRepr(b: Sds, p: bytes)
    requires b.Valid() && CanAlloc(|b.Text()| + |Repr(p)|)
    modifies b, b.mem
    ensures b.Valid() && (b.mem == old(b.mem) || fresh(b.mem))
    ensures b.Text() == old(b.Text()) + Repr(p)
  {
    hide ReprByte, RestOf, Repr, IsHeader, TypeOf, LenOf, AllocOf, AvailOf;
    ghost var all := b.Text() + Repr(p);
    RestStarts(b.Text(), p);
    b.CatUpTo([DQ], |all|);
    var k := 0;
    while k < |p|
      invariant 0 <= k <= |p| && b.Valid() && (b.mem == old(b.mem) || fresh(b.mem))
      invariant b.Text() + RestOf(p, k) == all && CanAlloc(|all|)
    {
      hide Sds.Valid, Sds.Text;
      RestStep(b.Text(), p, k);
      b.CatUpTo(ReprByte(p[k]), |all|);
      k := k + 1;
    }
    RestEnds(p);
    b.CatUpTo([DQ], |all|);
  }

  /** What is still to be printed when byte `k` is next. */
  function RestOf(p: bytes, k: nat): bytes
    requires k <= |p|
  {
    ReprBody(p[k..]) + [DQ]
  }

  lemma RestStarts(t: bytes, p: bytes)
    ensures t + [DQ] + RestOf(p, 0) == t + Repr(p)
  {
  }

  lemma RestStep(t: bytes, p: bytes, k: nat)
    requires k < |p|
    ensures t + ReprByte(p[k]) + RestOf(p, k + 1) == t + RestOf(p, k)
    ensures |t + ReprByte(p[k])| <= |t + RestOf(p, k)|
  {
  }

  lemma RestEnds(p: bytes)
    ensures RestOf(p, |p|) == [DQ]
  {
  }

  /** Result `r` of a scan resumed after `acc` was read. */
  function Prepend(acc: bytes, r: Token): Token {
    match r
    case Bad => Bad
    case Good(text, rest) => Good(acc + text, rest)
  }

  lemma PrependCons(acc: bytes, c: byte, r: Token)
    ensures Prepend(acc, Cons(c, r)) == Prepend(acc + [c], r)
  {
  }

  /** What one turn of the token loop finds: an error, the end of the token, a byte of it, or an opening quote. */
  datatype Turn = Error | Done | Byte(c: byte) | Open(m: Mode)

  /** `line[p]`, which must not lie behind the terminator. */
  function At(line: bytes, p: nat): byte
    requires NUL in line && p <= StrLen(line)
  {
    line[p]
  }

  lemma AtRest(line: bytes, p: nat, k: nat)
    requires NUL in line && p <= StrLen(line)
    ensures var l := CStr(line)[p..];
            && (k < |l| ==> p + k < StrLen(line) && At(line, p + k) == l[k] != NUL)
            && (k == |l| ==> p + k == StrLen(line) && At(line, p + k) == NUL)
  {
  }

  /** What a turn at the front of `l` in mode `m` means for the token; `n` bytes of `l` are used up. */
  ghost predicate TurnIs(l: bytes, m: Mode, turn: Turn, n: nat) {
    n <= |l| &&
    match turn
    case Error => Scan(l, m) == Bad
    case Done => Scan(l, m) == Good([], l[n..])
    case Byte(c) => n > 0 && Scan(l, m) == Cons(c, Scan(l[n..], m))
    case Open(m') => n > 0 && Scan(l, m) == Scan(l[n..], m')
  }

  /** How a turn carries the scan of a token forward. */
  lemma TurnKeeps(acc: bytes, l: bytes, p: nat, m: Mode, turn: Turn, n: nat)
    requires p <= |l| && TurnIs(l[p..], m, turn, n)
    ensures p + n <= |l|
    ensures var goal := Prepend(acc, Scan(l[p..], m));
            match turn
            case Error => goal == Bad
            case Done => goal == Good(acc, l[p + n..])
            case Byte(c) => goal == Prepend(acc + [c], Scan(l[p + n..], m))
            case Open(m') => goal == Prepend(acc, Scan(l[p + n..], m'))
  {
    assert l[p..][n..] == l[p + n..];
    match turn {
      case Byte(c) => PrependCons(acc, c, Scan(l[p + n..], m));
      case Done => assert acc + [] == acc;
      case _ =>
    }
  }

  /** The turn in double quotes; `p'` is the last byte it looked at and used. */
  method TurnInDq(line: bytes, p: nat) returns (turn: Turn, p': nat)
    requires NUL in line && p <= StrLen(line)
    ensures p <= p' <= StrLen(line) && (turn.Error? || p' < StrLen(line))
    ensures TurnIs(CStr(line)[p..], InDq, turn, if p' < StrLen(line) then p' - p + 1 else p' - p)
  {
    hide Unescape, HexDigitToInt, IsSpace, At;
    AtRest(line, p, 0);
    AtRest(line, p, 1);
    AtRest(line, p, 2);
    AtRest(line, p, 3);
    p' := p;
    if At(line, p) == BACKSLASH && At(line, p + 1) == LOWER_X
       && IsHexDigit(At(line, p + 2)) && IsHexDigit(At(line, p + 3)) {
      turn := Byte(HexDigitToInt(At(line, p + 2)) * 16 + HexDigitToInt(At(line, p + 3)));
      p' := p + 3;
    } else if At(line, p) == BACKSLASH && At(line, p + 1) != NUL {
      p' := p + 1;
      turn := Byte(Unescape(At(line, p')));
    } else if At(line, p) == DQ {
      turn := if At(line, p + 1) != NUL && !IsSpace(At(line, p + 1)) then Error else Done;
    } else if At(line, p) == NUL {
      turn := Error;
    } else {
      turn := Byte(At(line, p));
    }
  }

  method TurnInSq(line: bytes, p: nat) returns (turn: Turn, p': nat)
    requires NUL in line && p <= StrLen(line)
    ensures p <= p' <= StrLen(line) && (turn.Error? || p' < StrLen(line))
    ensures TurnIs(CStr(line)[p..], InSq, turn, if p' < StrLen(line) then p' - p + 1 else p' - p)
  {
    AtRest(line, p, 0);
    AtRest(line, p, 1);
    p' := p;
    if At(line, p) == BACKSLASH && At(line, p + 1) == SQ {
      p' := p + 1;
      turn := Byte(SQ);
    } else if At(line, p) == SQ {
      turn := if At(line, p + 1) != NUL && !IsSpace(At(line, p + 1)) then Error else Done;
    } else if At(line, p) == NUL {
      turn := Error;
    } else {
      turn := Byte(At(line, p));
    }
  }

  method TurnUnquoted(line: bytes, p: nat) returns (turn: Turn)
    requires NUL in line && p <= StrLen(line)
    ensures !turn.Error? && (turn.Done? || p < StrLen(line))
    ensures TurnIs(CStr(line)[p..], Unquoted, turn, if p < StrLen(line) then 1 else 0)
  {
    AtRest(line, p, 0);
    var c := At(line, p);
    if EndsUnquoted(c) || c == NUL {
      turn := Done;
    } else if c == DQ {
      turn := Open(InDq);
    } else if c == SQ {
      turn := Open(InSq);
    } else {
      turn := Byte(c);
    }
  }

  /** The token loop of `sdssplitargs`, entered at the first byte of a token. */
  method ReadToken(line: bytes, p0: nat) returns (ok: bool, current: Sds, p: nat)
    requires NUL in line && p0 < StrLen(line) && CanAlloc(StrLen(line))
    ensures p0 < p <= StrLen(line) && fresh(current) && fresh(current.mem)
    ensures ok == Scan(CStr(line)[p0..], Unquoted).Good?
    ensures ok ==> current.Valid() && Scan(CStr(line)[p0..], Unquoted) == Good(current.Text(), CStr(line)[p..])
  {
    hide Scan, Prepend, TurnIs, IsHeader, TypeOf, LenOf, AllocOf, AvailOf;
    ghost var l := CStr(line);
    ghost var goal := Scan(l[p0..], Unquoted);
    current := new Sds.NewLen(From([]), 0);
    p := p0;
    var inq, insq, done := false, false, false;
    PrependNone(goal);
    while !done
      invariant p0 <= p <= |l| && !(inq && insq) && (p == p0 ==> !inq && !insq && !done)
      invariant fresh(current) && fresh(current.mem) && current.Valid() && |current.Text()| <= p - p0
      invariant done ==> goal == Good(current.Text(), l[p..])
      invariant !done ==> goal == Prepend(current.Text(), Scan(l[p..], ModeOf(inq, insq)))
      decreases |l| - p, !done
    {
      var turn, q := TurnAt(line, p, ModeOf(inq, insq));
      ghost var n := if At(line, q) != NUL then q - p + 1 else q - p;
      TurnKeeps(current.Text(), l, p, ModeOf(inq, insq), turn, n);
      match turn {
        case Error => return false, current, p;
        case Done => done := true;
        case Open(m) => inq, insq := m == InDq, m == InSq;
        case Byte(c) => current.CatUpTo([c], |l|);
      }
      p := if At(line, q) != NUL then q + 1 else q;
    }
    ok := true;
  }

  /** The `inq` and `insq` flags. */
  function ModeOf(inq: bool, insq: bool): Mode {
    if inq then InDq else if insq then InSq else Unquoted
  }

  lemma PrependNone(r: Token)
    ensures Prepend([], r) == r
  {
  }

  /** One turn of the token loop, up to the final `if (*p) p++`. */
  method TurnAt(line: bytes, p: nat, m: Mode) returns (turn: Turn, q: nat)
    requires NUL in line && p <= StrLen(line)
    ensures p <= q <= StrLen(line) && (turn.Error? ==> !m.Unquoted?)
    ensures turn.Byte? || turn.Open? ==> q < StrLen(line)
    ensures TurnIs(CStr(line)[p..], m, turn, if At(line, q) != NUL then q - p + 1 else q - p)
  {
    hide TurnIs, Scan;
    match m {
      case InDq => turn, q := TurnInDq(line, p);
      case InSq => turn, q := TurnInSq(line, p);
      case Unquoted =>
        turn := TurnUnquoted(line, p);
        q := p;
    }
    AtRest(line, q, 0);
  }

  function PrependArgs(done: seq<bytes>, r: Args): Args {
    match r
    case Failed => Failed
    case Parsed(args) => Parsed(done + args)
  }

  lemma ArgRead(done: seq<bytes>, l: bytes)
    requires l != [] && !IsSpace(l[0])
    ensures PrependArgs(done, Tokenize(l)) ==
            match Scan(l, Unquoted)
            case Bad => Failed
            case Good(text, rest) => PrependArgs(done + [text], Tokenize(rest))
  {
  }

  lemma ArgsEnd(done: seq<bytes>, r: Args)
    ensures PrependArgs(done, Tokenize([])) == Parsed(done) && PrependArgs([], r) == r
  {
  }

  lemma BlankSkipped(l: bytes)
    requires l != [] && IsSpace(l[0])
    ensures Tokenize(l) == Tokenize(l[1..])
  {
  }

  /** `while (*p && isspace(*p)) p++`. */
  method SkipSpaces(line: bytes, p0: nat) returns (p: nat)
    requires NUL in line && p0 <= StrLen(line)
    ensures p0 <= p <= StrLen(line) && (p < StrLen(line) ==> !IsSpace(line[p]))
    ensures Tokenize(CStr(line)[p0..]) == Tokenize(CStr(line)[p..])
  {
    hide Tokenize;
    p := p0;
    while At(line, p) != NUL && IsSpace(At(line, p))
      invariant p0 <= p <= StrLen(line)
      invariant Tokenize(CStr(line)[p0..]) == Tokenize(CStr(line)[p..])
      decreases StrLen(line) - p
    {
      AtRest(line, p, 0);
      BlankSkipped(CStr(line)[p..]);
      assert CStr(line)[p..][1..] == CStr(line)[p + 1..];
      p := p + 1;
    }
    AtRest(line, p, 0);
  }

  /** `sdssplitargs`; not `ok` is NULL. */
  method SplitArgs(line: bytes) returns (ok: bool, vector: seq<Sds>)
    requires NUL in line && CanAlloc(StrLen(line))
    ensures ok == Tokenize(CStr(line)).Parsed?
    ensures ok ==> Hold(vector, Tokenize(CStr(line)).args)
    ensures !ok ==> vector == []
  {
    hide Tokenize, Scan, PrependArgs, IsHeader, TypeOf, LenOf, AllocOf, AvailOf;
    ghost var l, done: seq<bytes> := CStr(line), [];
    var p := 0;
    vector := [];
    ArgsEnd(done, Tokenize(l));
    assert l[0..] == l;
    while true
      invariant p <= |l| && Tokenize(l) == PrependArgs(done, Tokenize(l[p..]))
      invariant Hold(vector, done)
      decreases |l| - p
    {
      p := SkipSpaces(line, p);
      AtRest(line, p, 0);
      if At(line, p) == NUL {
        ArgsEnd(done, Tokenize(l));
        return true, vector;
      }
      ArgRead(done, l[p..]);
      var good, current, q := ReadToken(line, p);
      if !good {
        return false, [];
      }
      vector := vector + [current];
      done := done + [current.Text()];
      p := q;
    }
  }

  // ---- printing and reading back, by the code ----

  function Blanks(n: nat): (gaps: seq<bytes>)
    ensures |gaps| == n && AreGaps(gaps) && forall k :: 0 <= k < n ==> gaps[k] == [SPACE]
  {
    seq(n, _ => [SPACE])
  }

  lemma LineStep(t: bytes, args: seq<bytes>, gaps: seq<bytes>, k: nat)
    requires |gaps| == |args| && k < |args|
    ensures t + Repr(args[k]) + gaps[k] + Line(args[k + 1..], gaps[k + 1..]) == t + Line(args[k..], gaps[k..])
    ensures |t| + |Repr(args[k])| + |gaps[k]| <= |t + Line(args[k..], gaps[k..])|
  {
    hide Repr;
    assert args[k..][1..] == args[k + 1..] && gaps[k..][1..] == gaps[k + 1..];
    Assoc3(t, Repr(args[k]), gaps[k], Line(args[k + 1..], gaps[k + 1..]));
  }

  lemma LineEnds(args: seq<bytes>, gaps: seq<bytes>)
    requires |gaps| == |args|
    ensures args[0..] == args && gaps[0..] == gaps
    ensures [] + Line(args, gaps) == Line(args, gaps) && Line(args[|args|..], gaps[|args|..]) == []
  {
  }

  /** Prints each argument with sdscatrepr and a blank behind it on one string. */
  method PrintArgs(args: seq<bytes>) returns (b: Sds)
    requires CanAlloc(|Line(args, Blanks(|args|))|)
    ensures b.Valid() && b.Text() == Line(args, Blanks(|args|))
  {
    hide Line, Repr, Blanks, IsHeader, TypeOf, LenOf, AllocOf, AvailOf;
    ghost var gaps := Blanks(|args|);
    ghost var all := Line(args, gaps);
    b := new Sds.NewLen(From([]), 0);
    LineEnds(args, gaps);
    var k := 0;
    while k < |args|
      invariant 0 <= k <= |args| && b.Valid() && fresh(b) && fresh(b.mem)
      invariant b.Text() + Line(args[k..], gaps[k..]) == all
    {
      LineStep(b.Text(), args, gaps, k);
      CatRepr(b, args[k]);
      b.CatUpTo([SPACE], |all|);
      k := k + 1;
    }
    assert b.Text() + [] == b.Text();
  }

  /** The code's own round trip: what is printed and then split comes back as strings holding the arguments. */
  method PrintThenSplit(args: seq<bytes>) returns (ok: bool, vector: seq<Sds>)
    requires CanAlloc(|Line(args, Blanks(|args|))|)
    ensures ok && Hold(vector, args)
  {
    hide Line, Tokenize, Blanks, IsHeader, TypeOf, LenOf, AllocOf, AvailOf;
    var b := PrintArgs(args);
    ghost var line := b.Text() + [NUL];
    var tail := b.mem[b.s..];
    assert line == tail[..|line|];
    CLineRoundTrip(args, Blanks(|args|));
    StrLenOfPrefix(line, tail);
    ok, vector := SplitArgs(tail);
  }
}
