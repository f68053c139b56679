/**
 What sdssplitargs reads, as a grammar of the lines a user may write: words, and
 quoted bodies made of parts that each stand for one byte. The tokenizer is proved
 to accept these lines and no others, and to give back what they mean.
 */
module QuoteGrammar {
  import opened Bytes
  import opened Quote

  /** How one byte is spelt inside quotes. */
  datatype Part = Part(spelt: bytes, means: byte)

  /** `\n`, `\r`, `\t`, `\b` and `\a`; any other byte behind a backslash stands for itself. */
  predicate EscapeMeans(c: byte, m: byte) {
    m == if c == 'n' as int then 10
         else if c == 'r' as int then 13
         else if c == 't' as int then 9
         else if c == 'b' as int then 8
         else if c == 'a' as int then 7
         else c
  }

  predicate IsDqPart(p: Part) {
    || (p.spelt == [p.means] && p.means != '"' as int && p.means != '\\' as int)
    || (|p.spelt| == 2 && p.spelt[0] == '\\' as int && EscapeMeans(p.spelt[1], p.means))
    || (|p.spelt| == 4 && p.spelt[..2] == ['\\' as int, 'x' as int]
        && HexValue(p.spelt[2], p.means / 16) && HexValue(p.spelt[3], p.means % 16))
  }

  predicate IsSqPart(p: Part) {
    (p.spelt == [p.means] && p.means != '\'' as int) || (p.spelt == ['\\' as int, '\'' as int] && p.means == '\'' as int)
  }

  predicate StartsHex(l: bytes) {
    |l| >= 2 && IsHex(l[0]) && IsHex(l[1])
  }

  /** What follows does not turn the part into a longer one. */
  predicate Settled(m: Mode, p: Part, follow: bytes) {
    match m
    case InDq => p.spelt == ['\\' as int, 'x' as int] ==> !StartsHex(follow)
    case InSq => p.spelt == ['\\' as int] ==> follow != [] && follow[0] != '\'' as int
    case Unquoted => true
  }

  function QuoteOf(m: Mode): byte {
    if m.InDq? then '"' as int else '\'' as int
  }

  function Spelling(ps: seq<Part>): bytes {
    if ps == [] then [] else ps[0].spelt + Spelling(ps[1..])
  }

  function Meaning(ps: seq<Part>): bytes {
    if ps == [] then [] else [ps[0].means] + Meaning(ps[1..])
  }

  /** A quoted body in front of `follow`, which begins with the closing quote. */
  predicate IsBody(m: Mode, ps: seq<Part>, follow: bytes)
    decreases |ps|
  {
    ps == [] ||
    (&& (if m.InDq? then IsDqPart(ps[0]) else IsSqPart(ps[0]))
     && Settled(m, ps[0], Spelling(ps[1..]) + follow)
     && IsBody(m, ps[1..], follow))
  }

  predicate Blank(c: byte) {
    c in {32, 9, 10, 11, 12, 13}
  }

  predicate AtBlank(rest: bytes) {
    rest == [] || Blank(rest[0])
  }

  // ---- one quoted body ----

  lemma DqPartReads(p: Part, tail: bytes)
    requires IsDqPart(p) && Settled(InDq, p, tail)
    ensures Scan(p.spelt + tail, InDq) == Cons(p.means, Scan(tail, InDq))
  {
    hide IsHexDigit, HexDigitToInt, HexValue, IsHex;
    var n, l := |p.spelt|, p.spelt + tail;
    assert l[n..] == tail && l[0] == p.spelt[0] && (n > 1 ==> l[1] == p.spelt[1]);
    if n == 4 {
      HexPartReads(p, tail);
    } else if n == 2 && |l| >= 4 {
      assert p.spelt == [l[0], l[1]] && l[2] == tail[0] && l[3] == tail[1];
      HexDigitIff(l[2]);
      HexDigitIff(l[3]);
    }
  }

  lemma HexPartReads(p: Part, tail: bytes)
    requires IsDqPart(p) && |p.spelt| == 4
    ensures Scan(p.spelt + tail, InDq) == Cons(p.means, Scan(tail, InDq))
  {
    hide IsHexDigit, HexDigitToInt, HexValue;
    var l := p.spelt + tail;
    assert l[4..] == tail && l[0] == p.spelt[..2][0] && l[1] == p.spelt[..2][1];
    HexIsHex(l[2], p.means / 16);
    HexIsHex(l[3], p.means % 16);
  }

  lemma HexIsHex(c: byte, v: nat)
    requires HexValue(c, v)
    ensures IsHexDigit(c) && HexDigitToInt(c) == v
  {
  }

  lemma HexDigitIff(c: byte)
    ensures IsHexDigit(c) == IsHex(c) && (IsHexDigit(c) ==> HexValue(c, HexDigitToInt(c)))
  {
    if IsHexDigit(c) {
      assert HexValue(c, HexDigitToInt(c));
    }
    if v: nat :| v < 16 && HexValue(c, v) {
      HexIsHex(c, v);
    }
  }

  lemma SqPartReads(p: Part, tail: bytes)
    requires IsSqPart(p) && Settled(InSq, p, tail)
    ensures Scan(p.spelt + tail, InSq) == Cons(p.means, Scan(tail, InSq))
  {
    var l := p.spelt + tail;
    assert l[|p.spelt|..] == tail;
  }

  /** A body in quotes reads as what its parts mean. */
  lemma {:induction false} BodyReads(m: Mode, ps: seq<Part>, rest: bytes)
    requires !m.Unquoted? && IsBody(m, ps, [QuoteOf(m)] + rest) && AtBlank(rest)
    ensures Scan(Spelling(ps) + ([QuoteOf(m)] + rest), m) == Good(Meaning(ps), rest)
    decreases |ps|
  {
    hide IsDqPart, IsSqPart, Settled, Scan;
    var follow := [QuoteOf(m)] + rest;
    if ps == [] {
      assert Spelling(ps) + follow == follow;
      CloseReads(m, rest);
    } else {
      var tail := Spelling(ps[1..]) + follow;
      assert Spelling(ps) + follow == ps[0].spelt + tail;
      BodyReads(m, ps[1..], rest);
      if m.InDq? {
        DqPartReads(ps[0], tail);
      } else {
        SqPartReads(ps[0], tail);
      }
    }
  }

  lemma CloseReads(m: Mode, rest: bytes)
    requires !m.Unquoted?
    ensures Scan([QuoteOf(m)] + rest, m) == if AtBlank(rest) then Good([], rest) else Bad
  {
    var l := [QuoteOf(m)] + rest;
    assert l[1..] == rest && (rest != [] ==> l[1] == rest[0]);
  }

  /** The first part of what is read in double quotes, unless they close. */
  lemma FirstDqPart(l: bytes) returns (p: Part)
    requires l != [] && l[0] != '"' as int && Scan(l, InDq).Good?
    ensures p.spelt <= l && p.spelt != [] && IsDqPart(p) && Settled(InDq, p, l[|p.spelt|..])
    ensures Scan(l, InDq) == Cons(p.means, Scan(l[|p.spelt|..], InDq))
  {
    hide IsHexDigit, HexDigitToInt, HexValue;
    if |l| >= 4 {
      HexDigitIff(l[2]);
      HexDigitIff(l[3]);
    }
    if |l| >= 4 && l[0] == BACKSLASH && l[1] == LOWER_X && IsHexDigit(l[2]) && IsHexDigit(l[3]) {
      HexPart(l);
      p := Part(l[..4], HexDigitToInt(l[2]) * 16 + HexDigitToInt(l[3]));
    } else if |l| >= 2 && l[0] == BACKSLASH {
      p := Part(l[..2], Unescape(l[1]));
      assert |l| >= 4 ==> l[2..][0] == l[2] && l[2..][1] == l[3];
    } else {
      p := Part(l[..1], l[0]);
      assert l[..1] == [l[0]];
    }
  }

  lemma HexPart(l: bytes)
    requires |l| >= 4 && l[0] == '\\' as int && l[1] == 'x' as int && IsHexDigit(l[2]) && IsHexDigit(l[3])
    ensures IsDqPart(Part(l[..4], HexDigitToInt(l[2]) * 16 + HexDigitToInt(l[3])))
  {
    hide HexDigitToInt, IsHexDigit, HexValue;
    HexDigitIff(l[2]);
    HexDigitIff(l[3]);
    TwoDigits(HexDigitToInt(l[2]), HexDigitToInt(l[3]));
    assert l[..4][..2] == [l[0], l[1]];
  }

  lemma TwoDigits(a: nat, b: nat)
    requires a < 16 && b < 16
    ensures (a * 16 + b) / 16 == a && (a * 16 + b) % 16 == b
  {
  }

  lemma FirstSqPart(l: bytes) returns (p: Part)
    requires l != [] && l[0] != '\'' as int && Scan(l, InSq).Good?
    ensures p.spelt <= l && p.spelt != [] && IsSqPart(p) && Settled(InSq, p, l[|p.spelt|..])
    ensures Scan(l, InSq) == Cons(p.means, Scan(l[|p.spelt|..], InSq))
  {
    p := if |l| >= 2 && l[0] == BACKSLASH && l[1] == SQ then Part(l[..2], SQ) else Part(l[..1], l[0]);
    assert l[..1] == [l[0]];
    assert |l| >= 2 ==> l[..2] == [l[0], l[1]];
  }

  /** Whatever is read in quotes is a body of parts. */
  lemma {:induction false} BodyIsParts(l: bytes, m: Mode) returns (ps: seq<Part>)
    requires !m.Unquoted? && Scan(l, m).Good?
    ensures IsBody(m, ps, [QuoteOf(m)] + Scan(l, m).rest) && AtBlank(Scan(l, m).rest)
    ensures l == Spelling(ps) + ([QuoteOf(m)] + Scan(l, m).rest) && Meaning(ps) == Scan(l, m).text
    decreases |l|
  {
    hide Scan, IsDqPart, IsSqPart, Settled, AtBlank;
    NothingCloses(m);
    if l[0] == QuoteOf(m) {
      ps := [];
      assert l == [QuoteOf(m)] + l[1..];
      CloseReads(m, l[1..]);
      assert Spelling(ps) + l == l;
    } else {
      var p;
      if m.InDq? { p := FirstDqPart(l); } else { p := FirstSqPart(l); }
      var tail := l[|p.spelt|..];
      var more := BodyIsParts(tail, m);
      ps := [p] + more;
      BodyExtends(m, p, more, tail, Scan(l, m).rest);
    }
  }

  lemma NothingCloses(m: Mode)
    requires !m.Unquoted?
    ensures Scan([], m) == Bad
  {
  }

  lemma BodyExtends(m: Mode, p: Part, more: seq<Part>, tail: bytes, rest: bytes)
    requires IsBody(m, more, [QuoteOf(m)] + rest) && tail == Spelling(more) + ([QuoteOf(m)] + rest)
    requires (if m.InDq? then IsDqPart(p) else IsSqPart(p)) && Settled(m, p, tail)
    ensures IsBody(m, [p] + more, [QuoteOf(m)] + rest) && Meaning([p] + more) == [p.means] + Meaning(more)
    ensures Spelling([p] + more) + ([QuoteOf(m)] + rest) == p.spelt + tail
  {
    hide IsDqPart, IsSqPart, Settled;
    assert ([p] + more)[1..] == more;
  }

  // ---- one argument ----

  /** A word, or a quoted body with a word glued to its front. */
  datatype Arg = Arg(word: bytes, m: Mode, parts: seq<Part>)

  function Written(a: Arg): bytes {
    a.word + if a.m.Unquoted? then [] else [QuoteOf(a.m)] + Spelling(a.parts) + [QuoteOf(a.m)]
  }

  function Means(a: Arg): bytes {
    a.word + Meaning(a.parts)
  }

  predicate IsWordByte(c: byte) {
    c !in {32, 9, 10, 13, '"' as int, '\'' as int}
  }

  /** An argument in front of `rest`: a word ends at a blank, tab, LF or CR, a quoted body needs white space behind it. */
  predicate IsArg(a: Arg, rest: bytes) {
    && (forall c <- a.word :: IsWordByte(c))
    && (a.word != [] ==> !Blank(a.word[0]))
    && if a.m.Unquoted? then a.word != [] && a.parts == [] && (rest == [] || rest[0] in {32, 9, 10, 13})
       else IsBody(a.m, a.parts, [QuoteOf(a.m)] + rest) && AtBlank(rest)
  }

  lemma {:induction false} WordReads(w: bytes, tail: bytes)
    requires forall c <- w :: IsWordByte(c)
    ensures Scan(w + tail, Unquoted) == Prepend(w, Scan(tail, Unquoted))
    decreases |w|
  {
    var l := w + tail;
    if w == [] {
      assert l == tail;
    } else {
      assert w[0] in w && l[0] == w[0] && l[1..] == w[1..] + tail && [w[0]] + w[1..] == w;
      WordReads(w[1..], tail);
    }
  }

  /** An argument reads as what it means; the blank that ends a word is read with it. */
  lemma ArgReads(a: Arg, rest: bytes)
    requires IsArg(a, rest)
    ensures Scan(Written(a) + rest, Unquoted) ==
            Good(Means(a), if a.m.Unquoted? && rest != [] then rest[1..] else rest)
  {
    hide IsBody;
    if a.m.Unquoted? {
      WordReads(a.word, rest);
      assert Written(a) + rest == a.word + rest;
      assert Means(a) == a.word;
      assert Scan(rest, Unquoted) == Good([], if rest != [] then rest[1..] else rest);
    } else {
      var q := [QuoteOf(a.m)];
      var tail := Spelling(a.parts) + (q + rest);
      assert Written(a) + rest == a.word + (q + tail);
      WordReads(a.word, q + tail);
      assert (q + tail)[1..] == tail;
      BodyReads(a.m, a.parts, rest);
      assert Scan(q + tail, Unquoted) == Scan(tail, a.m);
    }
  }

  lemma {:induction false} WordIsPlain(l: bytes) returns (w: bytes, tail: bytes)
    ensures l == w + tail && (forall c <- w :: IsWordByte(c))
    ensures tail != [] ==> !IsWordByte(tail[0])
    decreases |l|
  {
    if l == [] || !IsWordByte(l[0]) {
      w, tail := [], l;
    } else {
      var v;
      v, tail := WordIsPlain(l[1..]);
      w := [l[0]] + v;
      assert l == w + tail;
    }
  }

  /** Whatever is read as an argument is one. */
  lemma ArgIsRead(l: bytes) returns (a: Arg, rest: bytes)
    requires l != [] && !Blank(l[0]) && Scan(l, Unquoted).Good?
    ensures IsArg(a, rest) && l == Written(a) + rest && Scan(l, Unquoted).text == Means(a)
    ensures Scan(l, Unquoted).rest == if a.m.Unquoted? && rest != [] then rest[1..] else rest
  {
    hide IsBody, Scan, Spelling, Meaning;
    var w, tail := WordIsPlain(l);
    WordReads(w, tail);
    assert w != [] ==> w[0] == l[0];
    WordEnds(tail);
    if tail != [] && (tail[0] == '"' as int || tail[0] == '\'' as int) {
      var m := if tail[0] == '"' as int then InDq else InSq;
      var ps := BodyIsParts(tail[1..], m);
      rest := Scan(tail[1..], m).rest;
      a := Arg(w, m, ps);
      assert l == Written(a) + rest;
    } else {
      a, rest := Arg(w, Unquoted, []), tail;
      NoParts(w);
    }
  }

  lemma WordEnds(tail: bytes)
    requires tail == [] || !IsWordByte(tail[0])
    ensures Scan(tail, Unquoted) ==
            if tail == [] then Good([], [])
            else if tail[0] == '"' as int then Scan(tail[1..], InDq)
            else if tail[0] == '\'' as int then Scan(tail[1..], InSq)
            else Good([], tail[1..])
  {
  }

  lemma NoParts(w: bytes)
    ensures Written(Arg(w, Unquoted, [])) == w && Means(Arg(w, Unquoted, [])) == w
  {
  }

  // ---- the line ----

  predicate AllBlank(g: bytes) {
    forall c <- g :: Blank(c)
  }

  /** Arguments, each with the white space behind it. */
  function Spelt(args: seq<Arg>, gaps: seq<bytes>): bytes
    requires |gaps| == |args|
  {
    if args == [] then [] else Written(args[0]) + (gaps[0] + Spelt(args[1..], gaps[1..]))
  }

  predicate IsLine(args: seq<Arg>, gaps: seq<bytes>)
    requires |gaps| == |args|
    decreases |args|
  {
    args == [] ||
    (AllBlank(gaps[0]) && IsArg(args[0], gaps[0] + Spelt(args[1..], gaps[1..])) && IsLine(args[1..], gaps[1..]))
  }

  function Meanings(args: seq<Arg>): seq<bytes> {
    if args == [] then [] else [Means(args[0])] + Meanings(args[1..])
  }

  /** Line `l` spells these arguments, with `lead` before and the gaps behind them, and they mean `texts`. */
  predicate Spells(l: bytes, lead: bytes, args: seq<Arg>, gaps: seq<bytes>, texts: seq<bytes>) {
    && |gaps| == |args| && AllBlank(lead) && IsLine(args, gaps)
    && l == lead + Spelt(args, gaps) && texts == Meanings(args)
  }

  lemma BlanksSkip(g: bytes, l: bytes)
    requires AllBlank(g)
    ensures Tokenize(g + l) == Tokenize(l)
  {
    assert IsBlank(g);
    BlanksAreSkipped(g, l);
  }

  lemma TokenizeArg(a: Arg, rest: bytes)
    requires IsArg(a, rest)
    ensures Tokenize(Written(a) + rest) ==
            match Tokenize(rest) case Failed => Failed case Parsed(args) => Parsed([Means(a)] + args)
  {
    hide Scan, Means, IsBody;
    var l := Written(a) + rest;
    assert l != [] && !IsSpace(l[0]) by { hide Tokenize, SkipBlanks; }
    ArgReads(a, rest);
    assert SkipBlanks(l) == l;
    if a.m.Unquoted? && rest != [] {
      assert rest == rest[..1] + rest[1..];
      BlanksSkip(rest[..1], rest[1..]);
    }
  }

  lemma {:induction false} LineReads(args: seq<Arg>, gaps: seq<bytes>)
    requires |gaps| == |args| && IsLine(args, gaps)
    ensures Tokenize(Spelt(args, gaps)) == Parsed(Meanings(args))
    decreases |args|
  {
    hide Tokenize, Means, IsArg, AllBlank;
    if args == [] {
      NothingToRead();
    } else {
      var tail := Spelt(args[1..], gaps[1..]);
      LineReads(args[1..], gaps[1..]);
      BlanksSkip(gaps[0], tail);
      TokenizeArg(args[0], gaps[0] + tail);
    }
  }

  lemma {:induction false} LeadingBlanks(l: bytes) returns (lead: bytes)
    ensures AllBlank(lead) && l == lead + SkipBlanks(l)
    decreases |l|
  {
    lead := [];
    if l != [] && IsSpace(l[0]) {
      lead := LeadingBlanks(l[1..]);
      lead := [l[0]] + lead;
    }
  }

  /** A line that is read spells what is read from it. */
  lemma {:induction false} LineIsRead(l: bytes) returns (lead: bytes, args: seq<Arg>, gaps: seq<bytes>)
    requires Tokenize(l).Parsed?
    ensures Spells(l, lead, args, gaps, Tokenize(l).args)
    decreases |l|
  {
    hide Scan, IsArg, Means, Written, Spelt, Meanings, IsLine, AllBlank, SkipBlanks;
    lead := LeadingBlanks(l);
    var t := SkipBlanks(l);
    if t == [] {
      args, gaps := [], [];
      EmptySpells(lead);
    } else {
      var a, rest := ArgIsRead(t);
      var r := Scan(t, Unquoted).rest;
      var gap, more, others := LineIsRead(r);
      var g := if a.m.Unquoted? && rest != [] then rest[..1] + gap else gap;
      EndIsBlank(a, rest, gap);
      EndSplits(rest, gap, Spelt(more, others));
      assert rest == g + Spelt(more, others);
      hide Tokenize;
      args, gaps := [a] + more, [g] + others;
      SpellsMore(a, g, more, others);
    }
  }

  lemma EndSplits(rest: bytes, gap: bytes, tail: bytes)
    ensures rest != [] && rest[1..] == gap + tail ==> rest == rest[..1] + gap + tail
  {
  }

  lemma EmptySpells(lead: bytes)
    ensures Spelt([], []) == [] && IsLine([], []) && Meanings([]) == [] && lead + [] == lead
  {
  }

  lemma SpellsMore(a: Arg, g: bytes, more: seq<Arg>, others: seq<bytes>)
    requires |others| == |more| && IsLine(more, others) && AllBlank(g) && IsArg(a, g + Spelt(more, others))
    ensures IsLine([a] + more, [g] + others) && Meanings([a] + more) == [Means(a)] + Meanings(more)
    ensures Spelt([a] + more, [g] + others) == Written(a) + (g + Spelt(more, others))
  {
    assert ([a] + more)[1..] == more && ([g] + others)[1..] == others;
  }

  lemma EndIsBlank(a: Arg, rest: bytes, gap: bytes)
    requires IsArg(a, rest) && AllBlank(gap)
    ensures rest != [] ==> AllBlank(rest[..1] + gap)
  {
  }

  /** A line is read as these texts exactly when it can be written as arguments that mean them. */
  lemma {:induction false} ArgsIff(l: bytes, texts: seq<bytes>)
    ensures Tokenize(l) == Parsed(texts) <==> exists lead, args, gaps :: Spells(l, lead, args, gaps, texts)
  {
    hide Tokenize, IsLine, AllBlank;
    if Tokenize(l) == Parsed(texts) {
      var lead, args, gaps := LineIsRead(l);
    }
    if lead, args, gaps :| Spells(l, lead, args, gaps, texts) {
      LineReads(args, gaps);
      BlanksSkip(lead, Spelt(args, gaps));
    }
  }

  // ---- what that means for words and single quotes ----

  function Plain(ws: seq<bytes>): seq<Arg> {
    if ws == [] then [] else [Arg(ws[0], Unquoted, [])] + Plain(ws[1..])
  }

  predicate IsWord(w: bytes) {
    w != [] && forall c <- w :: !Blank(c) && c != '"' as int && c != '\'' as int
  }

  /** Words with one of blank, tab, LF and CR behind each, and any white space after that. */
  function Words(ws: seq<bytes>, gaps: seq<bytes>): bytes
    requires |gaps| == |ws|
  {
    if ws == [] then [] else ws[0] + (gaps[0] + Words(ws[1..], gaps[1..]))
  }

  /** Words are read as they stand. */
  lemma {:induction false} WordsReadBack(ws: seq<bytes>, gaps: seq<bytes>)
    requires |gaps| == |ws| && forall w <- ws :: IsWord(w)
    requires forall g <- gaps :: AllBlank(g) && g != [] && g[0] in {32, 9, 10, 13}
    ensures Tokenize(Words(ws, gaps)) == Parsed(ws)
  {
    hide Tokenize;
    PlainLine(ws, gaps);
    LineReads(Plain(ws), gaps);
  }

  lemma {:induction false} PlainLine(ws: seq<bytes>, gaps: seq<bytes>)
    requires |gaps| == |ws| && forall w <- ws :: IsWord(w)
    requires forall g <- gaps :: AllBlank(g) && g != [] && g[0] in {32, 9, 10, 13}
    ensures var args := Plain(ws);
            |args| == |ws| && IsLine(args, gaps) && Spelt(args, gaps) == Words(ws, gaps) && Meanings(args) == ws
    decreases |ws|
  {
    hide AllBlank;
    if ws != [] {
      assert ws[0] in ws && gaps[0] in gaps;
      assert forall g <- gaps[1..] :: g in gaps;
      PlainLine(ws[1..], gaps[1..]);
      var a := Arg(ws[0], Unquoted, []);
      assert Plain(ws)[1..] == Plain(ws[1..]);
      assert Written(a) == ws[0] && Means(a) == ws[0];
      assert ws == [ws[0]] + ws[1..];
    }
  }

  /** Text in single quotes: `'` as `\'`, everything else as it is, backslashes too. */
  function SqParts(p: bytes): seq<Part> {
    if p == [] then []
    else [Part(if p[0] == '\'' as int then ['\\' as int, '\'' as int] else [p[0]], p[0])] + SqParts(p[1..])
  }

  function InSingleQuotes(p: bytes): bytes {
    ['\'' as int] + Spelling(SqParts(p)) + ['\'' as int]
  }

  lemma {:induction false} SqPartsMean(p: bytes, rest: bytes)
    requires p == [] || p[|p| - 1] != '\\' as int
    ensures Meaning(SqParts(p)) == p && IsBody(InSq, SqParts(p), ['\'' as int] + rest)
    decreases |p|
  {
    if p != [] {
      SqPartsMean(p[1..], rest);
      var ps := SqParts(p);
      assert ps[1..] == SqParts(p[1..]);
      if |p| > 1 {
        assert Spelling(ps[1..])[0] != '\'' as int;
      }
    }
  }

  lemma {:induction false} SqStaysOpen(p: bytes)
    requires p != [] && p[|p| - 1] == '\\' as int
    ensures Scan(Spelling(SqParts(p)) + ['\'' as int], InSq) == Bad
    decreases |p|
  {
    hide Scan;
    var ps, q := SqParts(p), ['\'' as int];
    var tail := Spelling(ps[1..]) + q;
    assert ps[1..] == SqParts(p[1..]);
    if |p| == 1 {
      assert Spelling(ps) + q == ['\\' as int, '\'' as int] + [];
      SqPartReads(Part(['\\' as int, '\'' as int], SQ), []);
      NothingCloses(InSq);
    } else {
      SqStaysOpen(p[1..]);
      assert Spelling(ps) + q == ps[0].spelt + tail;
      assert tail[0] != '\'' as int;
      SqPartReads(ps[0], tail);
    }
  }

  /** A text in single quotes is read back exactly when it does not end in a backslash, whatever else it holds. */
  lemma {:induction false} SingleQuotesIff(p: bytes)
    ensures Tokenize(InSingleQuotes(p)) == Parsed([p]) <==> p == [] || p[|p| - 1] != '\\' as int
  {
    hide Tokenize, Scan, IsBody, SqParts, Spelling, Meaning;
    var l, ps := InSingleQuotes(p), SqParts(p);
    if p == [] || p[|p| - 1] != '\\' as int {
      var a := Arg([], InSq, ps);
      SqPartsMean(p, []);
      assert Written(a) + [] == l && Means(a) == p;
      TokenizeArg(a, []);
      NothingToRead();
    } else {
      SqStaysOpen(p);
      QuoteOpens(l, Spelling(ps) + ['\'' as int]);
    }
  }

  lemma QuoteOpens(l: bytes, tail: bytes)
    requires l == ['\'' as int] + tail && Scan(tail, InSq) == Bad
    ensures Tokenize(l) == Failed
  {
    assert l[1..] == tail;
    assert SkipBlanks(l) == l && Scan(l, Unquoted) == Scan(tail, InSq);
  }

  // ---- what sdscatrepr prints ----

  predicate Printable(t: bytes) {
    forall c <- t :: 32 <= c <= 126
  }

  /** A spelling of its byte in printable text; no other is shorter, and digits are lower-case. */
  ghost predicate IsShortest(p: Part) {
    && IsDqPart(p) && Printable(p.spelt)
    && (forall q: Part :: IsDqPart(q) && Printable(q.spelt) && q.means == p.means ==> |p.spelt| <= |q.spelt|)
    && (forall c <- p.spelt :: |p.spelt| == 4 ==> !('A' as int <= c <= 'F' as int))
  }

  function ReprParts(p: bytes): seq<Part> {
    if p == [] then [] else [Part(ReprByte(p[0]), p[0])] + ReprParts(p[1..])
  }

  lemma ReprByteIsShortest(c: byte)
    ensures IsShortest(Part(ReprByte(c), c))
  {
    var p := Part(ReprByte(c), c);
    if |p.spelt| == 4 {
      TwoDigits(c / 16, c % 16);
      assert p.spelt[..2] == [BACKSLASH, LOWER_X];
      HexDigitIff(p.spelt[2]);
      HexDigitIff(p.spelt[3]);
    }
    forall q: Part | IsDqPart(q) && Printable(q.spelt) && q.means == c ensures |p.spelt| <= |q.spelt| {
      ShorterIsUnprintable(c, q);
    }
  }

  lemma ShorterIsUnprintable(c: byte, q: Part)
    requires IsDqPart(q) && Printable(q.spelt) && q.means == c
    ensures |ReprByte(c)| <= |q.spelt|
  {
    hide HexValue, HexDigit;
    assert q.spelt[0] in q.spelt;
    if |q.spelt| == 2 {
      assert q.spelt[1] in q.spelt;
    }
  }

  /** sdscatrepr prints the shortest printable spelling of every byte. */
  lemma {:induction false} ReprIsShortest(p: bytes)
    ensures var ps := ReprParts(p);
            && Repr(p) == ['"' as int] + Spelling(ps) + ['"' as int] && Meaning(ps) == p
            && forall a <- ps :: IsShortest(a)
  {
    ReprSpelling(p);
    PartsAreShortest(p);
  }

  lemma {:induction false} ReprSpelling(p: bytes)
    ensures Spelling(ReprParts(p)) == ReprBody(p) && Meaning(ReprParts(p)) == p
  {
    hide ReprByte;
    if p != [] {
      ReprSpelling(p[1..]);
      var a, more := Part(ReprByte(p[0]), p[0]), ReprParts(p[1..]);
      assert ([a] + more)[0] == a && ([a] + more)[1..] == more;
      assert p == [p[0]] + p[1..];
    }
  }

  lemma {:induction false} PartsAreShortest(p: bytes)
    ensures forall a <- ReprParts(p) :: IsShortest(a)
  {
    hide IsShortest, ReprByte;
    if p != [] {
      PartsAreShortest(p[1..]);
      ReprByteIsShortest(p[0]);
    }
  }
}
