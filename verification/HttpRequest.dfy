/** The request parser: a line-driven state machine over one complete message. */
module HttpRequest {
  import opened Bytes
  import opened SdsString
  import opened FormDecoder

  const CRLF: bytes := [CR, LF]
  const COLON: byte := ':' as int
  const HTTP_SLASH: bytes := Ascii("HTTP/")
  const POST: bytes := Ascii("POST")
  const CONTENT_TYPE: bytes := Ascii("Content-Type")
  const FORM: bytes := Ascii("application/x-www-form-urlencoded")

  function Ascii(s: string): (t: bytes)
    ensures |t| == |s| && forall k :: 0 <= k < |s| && s[k] < 128 as char ==> t[k] == s[k] as int
  {
    seq(|s|, k requires 0 <= k < |s| => s[k] as int % 256)
  }

  datatype Option<+T> = None | Some(value: T)

  // ---- finding bytes and line ends ----

  function IndexOf(t: bytes, c: byte): (n: nat)
    ensures n <= |t| && c !in t[..n] && (n < |t| ==> t[n] == c)
  {
    if t == [] || t[0] == c then 0 else 1 + IndexOf(t[1..], c)
  }

  predicate CrlfAt(t: bytes, k: int) {
    0 <= k && k + 1 < |t| && t[k] == '\r' as int && t[k + 1] == '\n' as int
  }

  ghost predicate CrlfFree(t: bytes) {
    forall k :: !CrlfAt(t, k)
  }

  /** `std::search` for CRLF from `pos`; the end of the buffer when there is none. */
  function LineEnd(b: bytes, pos: nat): (e: nat)
    requires pos <= |b|
    ensures pos <= e <= |b| && (forall k :: pos <= k < e ==> !CrlfAt(b, k)) && (e < |b| ==> CrlfAt(b, e))
    decreases |b| - pos
  {
    if pos == |b| || CrlfAt(b, pos) then pos else LineEnd(b, pos + 1)
  }

  // ---- the two regular expressions ----

  function RequestText(m: bytes, p: bytes, v: bytes): bytes {
    m + [' ' as int] + (p + [' ' as int] + (Ascii("HTTP/") + v))
  }

  /** `^([^ ]*) ([^ ]*) HTTP/([^ ]*)$`. */
  predicate RequestLineMatches(line: bytes, m: bytes, p: bytes, v: bytes) {
    && ' ' as int !in m && ' ' as int !in p && ' ' as int !in v
    && line == RequestText(m, p, v)
  }

  function RequestLine(line: bytes): Option<(bytes, bytes, bytes)> {
    var i := IndexOf(line, SPACE);
    if i == |line| then None
    else
      var rest := line[i + 1..];
      var j := IndexOf(rest, SPACE);
      if j == |rest| then None
      else
        var last := rest[j + 1..];
        if |last| >= 5 && last[..5] == HTTP_SLASH && SPACE !in last then Some((line[..i], rest[..j], last[5..]))
        else None
  }

  lemma {:induction false} IndexOfFirst(a: bytes, c: byte, b: bytes)
    requires c !in a
    ensures var t := a + [c] + b; IndexOf(t, c) == |a| && t[..|a|] == a && t[|a| + 1..] == b
  {
    var t := a + [c] + b;
    assert t[..|a|] == a;
    if a != [] {
      IndexOfFirst(a[1..], c, b);
      assert t[1..] == a[1..] + [c] + b && a[0] in a;
    }
  }

  lemma IndexOfSplits(t: bytes, c: byte)
    requires IndexOf(t, c) < |t|
    ensures var i := IndexOf(t, c); t == t[..i] + [c] + t[i + 1..] && c !in t[..i]
  {
    hide IndexOf;
    var i := IndexOf(t, c);
    assert t == t[..i] + [t[i]] + t[i + 1..];
  }

  /** The match exists for one split of the line at most, and it is the one found. */
  lemma {:induction false} RequestLineIff(line: bytes, m: bytes, p: bytes, v: bytes)
    ensures RequestLine(line) == Some((m, p, v)) <==> RequestLineMatches(line, m, p, v)
  {
    if RequestLineMatches(line, m, p, v) {
      RequestLineFound(m, p, v);
    }
    if RequestLine(line) == Some((m, p, v)) {
      RequestLineSplits(line, m, p, v);
    }
  }

  lemma RequestLineFound(m: bytes, p: bytes, v: bytes)
    requires SPACE !in m && SPACE !in p && SPACE !in v
    ensures RequestLine(RequestText(m, p, v)) == Some((m, p, v))
  {
    hide IndexOf;
    var last := HTTP_SLASH + v;
    var rest := p + [SPACE] + last;
    IndexOfFirst(m, SPACE, rest);
    IndexOfFirst(p, SPACE, last);
    assert last[..5] == HTTP_SLASH && last[5..] == v;
    assert SPACE !in HTTP_SLASH;
  }

  lemma RequestLineSplits(line: bytes, m: bytes, p: bytes, v: bytes)
    requires RequestLine(line) == Some((m, p, v))
    ensures RequestLineMatches(line, m, p, v)
  {
    hide IndexOf;
    var i := IndexOf(line, SPACE);
    var rest := line[i + 1..];
    IndexOfSplits(line, SPACE);
    IndexOfSplits(rest, SPACE);
    var last := rest[IndexOf(rest, SPACE) + 1..];
    assert last == HTTP_SLASH + v;
    assert rest == p + [SPACE] + last;
  }

  /** `^([^:]*): ?(.*)$`; the blank is taken when it is there, and `.` is any byte but CR and LF. */
  predicate HeaderMatches(line: bytes, name: bytes, value: bytes) {
    && ':' as int !in name && '\r' as int !in value && '\n' as int !in value
    && (line == name + [':' as int] + ([' ' as int] + value)
        || (line == name + [':' as int] + value && (value == [] || value[0] != ' ' as int)))
  }

  function HeaderLine(line: bytes): Option<(bytes, bytes)> {
    var i := IndexOf(line, COLON);
    if i == |line| then None
    else
      var rest := line[i + 1..];
      var value := if rest != [] && rest[0] == SPACE then rest[1..] else rest;
      if CR in value || LF in value then None else Some((line[..i], value))
  }

  lemma HeaderLineIff(line: bytes, name: bytes, value: bytes)
    ensures HeaderLine(line) == Some((name, value)) <==> HeaderMatches(line, name, value)
  {
    if HeaderMatches(line, name, value) {
      IndexOfFirst(name, COLON, if line == name + [COLON] + ([SPACE] + value) then [SPACE] + value else value);
    }
    if HeaderLine(line) == Some((name, value)) {
      IndexOfSplits(line, COLON);
      var rest := line[IndexOf(line, COLON) + 1..];
      assert rest != [] && rest[0] == SPACE ==> rest == [SPACE] + value;
    }
  }

  // ---- the path ----

  const SLASH: bytes := Ascii("/")
  const DOT_HTML: bytes := Ascii(".html")

  predicate IsDefaultHtml(path: bytes) {
    || path == Ascii("/index") || path == Ascii("/login") || path == Ascii("/register")
    || path == Ascii("/welcome") || path == Ascii("/video") || path == Ascii("/image")
  }

  /** `_ParsePath`. */
  function MapPath(path: bytes): bytes {
    if path == SLASH then Ascii("/index.html")
    else if path == Ascii("/facvicon.ico") then path
    else if IsDefaultHtml(path) then path + DOT_HTML
    else path
  }

  /**
   The mapping, path by path: "/" and "/index" lead to the index page, the other five
   names of pages get their suffix, and every other path stays as it is.
   */
  lemma MapPathIff(p: bytes)
    ensures MapPath(p) == Ascii("/index.html") <==>
            p == Ascii("/") || p == Ascii("/index") || p == Ascii("/index.html")
    ensures MapPath(p) != p <==>
            || p == Ascii("/") || p == Ascii("/index") || p == Ascii("/login") || p == Ascii("/register")
            || p == Ascii("/welcome") || p == Ascii("/video") || p == Ascii("/image")
    ensures MapPath(p) != p && p != Ascii("/") ==> MapPath(p) == p + Ascii(".html")
  {
    var t := Ascii("/index.html");
    assert t[1] == 'i' as int && t[2] == 'n' as int && t[6] == '.' as int;
    assert Ascii("/index") + DOT_HTML == t;
    if IsDefaultHtml(p) && p != Ascii("/index") {
      assert (p + DOT_HTML)[1] == p[1] && (p + DOT_HTML)[2] == p[2];
      assert Ascii("/image")[2] == 'm' as int && Ascii("/login")[1] == 'l' as int && Ascii("/video")[1] == 'v' as int;
    }
  }

  /** A mapped path is a fixed point of the mapping. */
  lemma MapPathIsIdempotent(path: bytes)
    ensures MapPath(MapPath(path)) == MapPath(path)
  {
    var r := MapPath(path);
    if r != path {
      assert r[|r| - 1] == 'l' as int;
      assert SLASH[0] == '/' as int && Ascii("/facvicon.ico")[12] == 'o' as int;
      assert Ascii("/index")[5] == 'x' as int && Ascii("/login")[5] == 'n' as int;
      assert Ascii("/register")[8] == 'r' as int && Ascii("/welcome")[7] == 'e' as int;
      assert Ascii("/video")[5] == 'o' as int && Ascii("/image")[5] == 'e' as int;
    }
  }

  // ---- the state machine as a value ----

  datatype ParseState = REQUEST_LINE | HEADERS | BODY | FINISH

  datatype Req = Req(
    state: ParseState,
    meth: bytes,
    path: bytes,
    version: bytes,
    body: bytes,
    headers: Fields,
    post: Fields)

  const EMPTY: Req := Req(REQUEST_LINE, [], [], [], [], map[], map[])

  /** `operator[]` of the maps: an absent key appears with an empty value. */
  function Touch(m: Fields, key: bytes): Fields {
    if key in m then m else m[key := []]
  }

  /** What the database says about user and password is a parameter; empty ones are refused before it is asked. */
  function UserVerify(user: bytes, pwd: bytes, verdict: bool): bool {
    user != [] && pwd != [] && verdict
  }

  predicate IsForm(r: Req) {
    r.meth == POST && CONTENT_TYPE in r.headers && r.headers[CONTENT_TYPE] == FORM
  }

  /** The two paths of HTML_TAGS, the first of them spelt as the source spells it. */
  predicate IsTagged(path: bytes) {
    path == Ascii("/reigster.html") || path == Ascii("/login.html")
  }

  /** `GetPost`: an absent key reads as empty. */
  function GetPost(post: Fields, key: bytes): bytes {
    if key in post then post[key] else []
  }

  /** What a decoded form does on one of the tagged pages. */
  function AfterLogin(r: Req, verdict: bool): Req {
    if !IsTagged(r.path) then r
    else
      r.(post := Touch(Touch(r.post, USERNAME), PASSWORD),
         path := if UserVerify(GetPost(r.post, USERNAME), GetPost(r.post, PASSWORD), verdict) then WELCOME else ERROR)
  }

  /** `_ParsePost`. */
  function ParsePost(r: Req, verdict: bool): Req
    requires IsForm(r) ==> PercentsComplete(r.body)
  {
    if r.meth != POST then r
    else if !IsForm(r) then r.(headers := Touch(r.headers, CONTENT_TYPE))
    else AfterLogin(r.(body := Rewrite(r.body), post := Decode(r.body, r.post)), verdict)
  }

  const WELCOME: bytes := Ascii("/welcome.html")
  const ERROR: bytes := Ascii("/error.html")
  const USERNAME: bytes := Ascii("username")
  const PASSWORD: bytes := Ascii("password")

  /** What a line does; `last` says that at most two bytes of the buffer start at the line. None is a parse error. */
  function Step(r: Req, line: bytes, last: bool, verdict: bool): Option<Req>
    requires StepDefined(r, line)
  {
    match r.state
    case REQUEST_LINE =>
      (match RequestLine(line)
       case None => None
       case Some((m, p, v)) => Some(r.(meth := m, path := MapPath(p), version := v, state := HEADERS)))
    case HEADERS =>
      var q := match HeaderLine(line)
               case None => r.(state := BODY)
               case Some((name, value)) => r.(headers := r.headers[name := value]);
      Some(if last then q.(state := FINISH) else q)
    case BODY => Some(ParsePost(r.(body := line), verdict).(state := FINISH))
    case FINISH => Some(r)
  }

  /** The form decoder needs two bytes behind each '%'. */
  predicate StepDefined(r: Req, line: bytes) {
    r.state == BODY && IsForm(r) ==> PercentsComplete(line)
  }

  function Rank(s: ParseState): nat {
    match s case REQUEST_LINE => 0 case HEADERS => 1 case BODY => 2 case FINISH => 3
  }

  /** States only move forward, and every line but a header line moves them. */
  lemma StepMovesForward(r: Req, line: bytes, last: bool, verdict: bool)
    requires StepDefined(r, line)
    ensures match Step(r, line, last, verdict)
            case None => r.state == REQUEST_LINE
            case Some(q) =>
              && Rank(q.state) >= Rank(r.state)
              && (r.state in {REQUEST_LINE, BODY} ==> Rank(q.state) > Rank(r.state))
              && (r.state == HEADERS && q.state == HEADERS ==> HeaderLine(line).Some? && !last)
  {
  }

  /** The search of this turn does not start behind the end of the buffer, and the step has what it needs. */
  predicate TurnInBounds(b: bytes, pos: nat, r: Req) {
    pos <= |b| && StepDefined(r, b[pos..LineEnd(b, pos)])
  }

  /** The same for all turns up to FINISH or a parse error. */
  predicate InBounds(b: bytes, pos: nat, r: Req, verdict: bool)
    decreases |b| - pos
  {
    r.state == FINISH ||
    (TurnInBounds(b, pos, r) &&
     var e := LineEnd(b, pos);
     match Step(r, b[pos..e], |b| - pos <= 2, verdict)
     case None => true
     case Some(q) => InBounds(b, e + 2, q, verdict))
  }

  /** The loop of `Parse`: its result and the request it leaves. Out of bounds it says nothing about the code. */
  function ParseFrom(b: bytes, pos: nat, r: Req, verdict: bool): (bool, Req)
    decreases |b| - pos
  {
    if r.state == FINISH then (true, r)
    else if !TurnInBounds(b, pos, r) then (false, r)
    else
      var e := LineEnd(b, pos);
      match Step(r, b[pos..e], |b| - pos <= 2, verdict)
      case None => (false, r)
      case Some(q) => ParseFrom(b, e + 2, q, verdict)
  }

  /**
   Parse fails exactly when it starts at a request line that does not match, and
   then leaves the request as it was; otherwise it ends in FINISH.
   */
  lemma {:induction false} ParseFailsIff(b: bytes, pos: nat, r: Req, verdict: bool)
    requires InBounds(b, pos, r, verdict)
    ensures var (ok, q) := ParseFrom(b, pos, r, verdict);
            && (ok <==> q.state == FINISH) && (!ok ==> q == r)
            && (!ok <==> r.state == REQUEST_LINE && RequestLine(b[pos..LineEnd(b, pos)]) == None)
    decreases |b| - pos
  {
    hide ParsePost, RequestLine, HeaderLine, MapPath, LineEnd;
    if r.state != FINISH {
      var e := LineEnd(b, pos);
      StepMovesForward(r, b[pos..e], |b| - pos <= 2, verdict);
      match Step(r, b[pos..e], |b| - pos <= 2, verdict) {
        case None =>
        case Some(q) => ParseFailsIff(b, e + 2, q, verdict);
      }
    }
  }

  /**
   The request paths whose posts reach the user check: the login page under both
   its names, and the misspelt page only under its misspelt name, so that posts
   to "/register" never do.
   */
  lemma UserCheckIff(p: bytes)
    ensures IsTagged(MapPath(p)) <==> IsLoginPath(p)
  {
    assert Ascii("/login") + DOT_HTML == Ascii("/login.html");
    assert |Ascii("/index.html")| == |Ascii("/login.html")| && Ascii("/index.html")[1] == 'i' as int;
    assert Ascii("/login.html")[1] == 'l' as int && Ascii("/facvicon.ico")[1] == 'f' as int;
    assert Ascii("/reigster.html")[2] == 'e' as int && Ascii("/reigster.html")[3] == 'i' as int;
    assert (Ascii("/register") + DOT_HTML)[3] == 'g' as int;
    assert (Ascii("/index") + DOT_HTML)[1] == 'i' as int && (Ascii("/image") + DOT_HTML)[1] == 'i' as int;
    assert (Ascii("/welcome") + DOT_HTML)[1] == 'w' as int && (Ascii("/video") + DOT_HTML)[1] == 'v' as int;
    assert Ascii("/login")[1] == 'l' as int && SLASH[0] == '/' as int;
  }

  /** Behind the request line nothing but the user check of a POST changes what the line said. */
  lemma {:induction false} RestKeepsLine(b: bytes, pos: nat, r: Req, verdict: bool)
    requires r.state != REQUEST_LINE
    ensures var q := ParseFrom(b, pos, r, verdict).1;
            && q.meth == r.meth && q.version == r.version
            && (q.path == r.path || (r.meth == POST && IsTagged(r.path) && q.path in {WELCOME, ERROR}))
    decreases |b| - pos
  {
    hide RequestLine, HeaderLine, MapPath, Rewrite, Decode, PercentsComplete, IsTagged;
    if r.state != FINISH && TurnInBounds(b, pos, r) {
      var e := LineEnd(b, pos);
      var next := Step(r, b[pos..e], |b| - pos <= 2, verdict);
      if next.Some? && next.value.state != FINISH {
        RestKeepsLine(b, e + 2, next.value, verdict);
      }
    }
  }

  /**
   Whatever the message, what `Parse` leaves of its request line is the method, the
   version, and the mapped path; only a POST to a login page may lead elsewhere.
   */
  lemma LineIsKept(b: bytes, verdict: bool, m: bytes, p: bytes, v: bytes)
    requires RequestLineMatches(FirstLine(b), m, p, v)
    ensures var q := ParseFrom(b, 0, EMPTY, verdict).1;
            && q.meth == m && q.version == v
            && (q.path == MapPath(p) ||
                (m == Ascii("POST") && IsLoginPath(p) && q.path in {Ascii("/welcome.html"), Ascii("/error.html")}))
  {
    hide RequestLine, RequestLineMatches, MapPath, HeaderLine, IsTagged, IsLoginPath;
    RequestLineIff(FirstLine(b), m, p, v);
    UserCheckIff(p);
    var e := LineEnd(b, 0);
    assert b[0..e] == b[..e];
    RestKeepsLine(b, e + 2, EMPTY.(meth := m, path := MapPath(p), version := v, state := HEADERS), verdict);
  }

  // ---- complete messages stay in bounds ----

  predicate BlankLineAt(b: bytes, k: nat) {
    CrlfAt(b, k) && CrlfAt(b, k + 2)
  }

  /** Every line that reaches the form decoder has two bytes behind each '%'. */
  predicate EscapesComplete(b: bytes, pos: nat, r: Req, verdict: bool)
    decreases |b| - pos
  {
    r.state == FINISH || pos > |b| ||
    (var e := LineEnd(b, pos);
     && StepDefined(r, b[pos..e])
     && match Step(r, b[pos..e], |b| - pos <= 2, verdict)
        case None => true
        case Some(q) => EscapesComplete(b, e + 2, q, verdict))
  }

  /**
   A message with a blank line is parsed without leaving the buffer, whatever its
   lines look like, exactly when a form in it has its escapes complete.
   */
  lemma {:induction false} BlankLineInBoundsIff(b: bytes, k: nat, pos: nat, r: Req, verdict: bool)
    requires BlankLineAt(b, k)
    requires pos <= k || (pos == k + 2 && r.state != REQUEST_LINE) || (pos <= |b| && r.state in {BODY, FINISH})
    ensures InBounds(b, pos, r, verdict) <==> EscapesComplete(b, pos, r, verdict)
    decreases |b| - pos
  {
    hide ParsePost, RequestLine, HeaderLine, MapPath, StepDefined;
    if r.state != FINISH {
      var e := LineEnd(b, pos);
      var line := b[pos..e];
      if r.state == HEADERS && pos == k + 2 {
        assert line == [];
        EmptyLineIsNoHeader();
      }
      if StepDefined(r, line) {
        var next := Step(r, line, |b| - pos <= 2, verdict);
        if next.Some? && next.value.state != FINISH {
          assert e <= k + 2;
          BlankLineInBoundsIff(b, k, e + 2, next.value, verdict);
        }
      }
    }
  }

  /** The request line from `pos`, if that is what comes next, or the one already read is not a POST. */
  predicate NotPost(b: bytes, pos: nat, r: Req) {
    if r.state == REQUEST_LINE then
      pos <= |b| &&
      match RequestLine(b[pos..LineEnd(b, pos)])
      case None => true
      case Some((m, _, _)) => m != POST
    else r.meth != POST
  }

  lemma {:induction false} NotPostHasNoForm(b: bytes, pos: nat, r: Req, verdict: bool)
    requires NotPost(b, pos, r)
    ensures EscapesComplete(b, pos, r, verdict)
    decreases |b| - pos
  {
    hide RequestLine, HeaderLine, MapPath, PercentsComplete;
    if r.state != FINISH && pos <= |b| {
      var e := LineEnd(b, pos);
      var next := Step(r, b[pos..e], |b| - pos <= 2, verdict);
      if next.Some? {
        NotPostHasNoForm(b, e + 2, next.value, verdict);
      }
    }
  }

  lemma {:induction false} PercentFreeIsComplete(b: bytes, pos: nat, r: Req, verdict: bool)
    requires PERCENT !in b
    ensures EscapesComplete(b, pos, r, verdict)
    decreases |b| - pos
  {
    hide ParsePost, RequestLine, HeaderLine, MapPath;
    if r.state != FINISH && pos <= |b| {
      var e := LineEnd(b, pos);
      PercentFree(b[pos..e]);
      var next := Step(r, b[pos..e], |b| - pos <= 2, verdict);
      if next.Some? {
        PercentFreeIsComplete(b, e + 2, next.value, verdict);
      }
    }
  }

  /** So a blank line is all it takes for every request but a POST, and for any request without '%'. */
  lemma BlankLineSuffices(b: bytes, k: nat, pos: nat, r: Req, verdict: bool)
    requires BlankLineAt(b, k) && (NotPost(b, pos, r) || PERCENT !in b)
    requires pos <= k || (pos == k + 2 && r.state != REQUEST_LINE) || (pos <= |b| && r.state in {BODY, FINISH})
    ensures InBounds(b, pos, r, verdict)
  {
    hide InBounds, EscapesComplete, NotPost;
    if NotPost(b, pos, r) {
      NotPostHasNoForm(b, pos, r, verdict);
    } else {
      PercentFreeIsComplete(b, pos, r, verdict);
    }
    BlankLineInBoundsIff(b, k, pos, r, verdict);
  }

  lemma EmptyLineIsNoHeader()
    ensures HeaderLine([]) == None
  {
  }

  lemma {:induction false} PercentFree(t: bytes)
    requires PERCENT !in t
    ensures PercentsComplete(t)
  {
    if t != [] {
      assert t[0] in t;
      PercentFree(t[1..]);
    }
  }

  // ---- the round trip ----

  type Header = (bytes, bytes)

  function HeaderText(h: Header): bytes {
    h.0 + [':' as int] + ([' ' as int] + h.1)
  }

  function HeaderLines(hs: seq<Header>): bytes {
    if hs == [] then [] else HeaderText(hs[0]) + CRLF + HeaderLines(hs[1..])
  }

  function Serialise(m: bytes, p: bytes, v: bytes, hs: seq<Header>, body: bytes): bytes {
    RequestText(m, p, v) + CRLF + (HeaderLines(hs) + CRLF + body)
  }

  function AddAll(m: Fields, hs: seq<Header>): Fields
    decreases |hs|
  {
    if hs == [] then m else AddAll(m[hs[0].0 := hs[0].1], hs[1..])
  }

  ghost predicate IsHeader(h: Header) {
    COLON !in h.0 && CrlfFree(h.0) && CR !in h.1 && LF !in h.1
  }

  /** What is read of a body: the bytes before its first CRLF, whatever its announced length. */
  function FirstLine(t: bytes): bytes {
    t[..LineEnd(t, 0)]
  }

  lemma FirstLineIs(line: bytes, rest: bytes)
    requires CrlfFree(line)
    ensures FirstLine(line) == line && FirstLine(line + ['\r' as int, '\n' as int] + rest) == line
  {
    LineEndAtBody(line, line);
    var t := line + CRLF + rest;
    assert t[0..] == t;
    LineEndAt(t, 0, line, rest);
  }

  /** What the body does to a request whose headers are read. */
  function AfterBody(r: Req, body: bytes, verdict: bool): Req
    requires IsForm(r) ==> PercentsComplete(FirstLine(body))
  {
    if body == [] then r.(state := FINISH) else ParsePost(r.(body := FirstLine(body)), verdict).(state := FINISH)
  }

  /** The search stops at the CRLF behind a line that holds none. */
  lemma LineEndAt(b: bytes, pos: nat, line: bytes, rest: bytes)
    requires pos <= |b| && b[pos..] == line + CRLF + rest && CrlfFree(line)
    ensures var e := LineEnd(b, pos);
            e == pos + |line| && e + 2 + |rest| == |b| && b[pos..e] == line && b[e + 2..] == rest
  {
    var t := line + CRLF + rest;
    var n := pos + |line|;
    assert forall k :: 0 <= k < |t| ==> b[pos + k] == t[k];
    assert CrlfAt(b, n);
    forall k | pos <= k < n ensures !CrlfAt(b, k) {
      assert !CrlfAt(line, k - pos);
    }
    assert LineEnd(b, pos) == n;
    assert b[pos..n] == b[pos..][..|line|] == line;
    assert b[n + 2..] == b[pos..][|line| + 2..] == rest;
  }

  /** The line from `pos` to `e` takes request `r` to `q`. */
  predicate Takes(b: bytes, pos: nat, e: nat, r: Req, q: Req, verdict: bool) {
    && TurnInBounds(b, pos, r) && LineEnd(b, pos) == e && r.state != FINISH
    && Step(r, b[pos..e], |b| - pos <= 2, verdict) == Some(q)
  }

  lemma TakenLine(b: bytes, pos: nat, e: nat, r: Req, q: Req, verdict: bool)
    requires Takes(b, pos, e, r, q, verdict)
    ensures InBounds(b, pos, r, verdict) == InBounds(b, e + 2, q, verdict)
    ensures ParseFrom(b, pos, r, verdict) == ParseFrom(b, e + 2, q, verdict)
  {
    hide Step, StepDefined, LineEnd;
  }

  lemma LineEndAtBody(b: bytes, body: bytes)
    requires b == body && CrlfFree(body)
    ensures LineEnd(b, 0) == |b|
  {
    var e := LineEnd(b, 0);
    assert !CrlfAt(body, e);
  }

  lemma LineEndInRest(b: bytes, pos: nat, t: bytes)
    requires pos <= |b| && b[pos..] == t
    ensures LineEnd(b, pos) == pos + LineEnd(t, 0) && b[pos..LineEnd(b, pos)] == FirstLine(t)
  {
    var e, f := LineEnd(b, pos), LineEnd(t, 0);
    assert forall k :: CrlfAt(t, k) ==> CrlfAt(b, pos + k);
    assert forall k :: pos <= k && CrlfAt(b, k) ==> CrlfAt(t, k - pos);
    if f < |t| {
      assert CrlfAt(b, pos + f);
    }
    if e < |b| {
      assert CrlfAt(t, e - pos);
    }
    assert b[pos..e] == t[..e - pos];
  }

  lemma HeaderTextIsOneLine(h: Header)
    requires IsHeader(h)
    ensures CrlfFree(HeaderText(h)) && HeaderLine(HeaderText(h)) == Some(h)
  {
    var t, n := HeaderText(h), |h.0|;
    HeaderLineIff(t, h.0, h.1);
    assert forall k :: 0 <= k < n ==> t[k] == h.0[k];
    assert t[n] == COLON && t[n + 1] == SPACE;
    assert forall k :: n + 2 <= k < |t| ==> t[k] == h.1[k - n - 2];
    forall k ensures !CrlfAt(t, k) {
      assert !CrlfAt(h.0, k);
    }
  }

  /** From the first header line to the end. */
  lemma {:induction false} HeadersRoundTrip(b: bytes, pos: nat, r: Req, hs: seq<Header>, body: bytes, verdict: bool)
    requires pos <= |b| && b[pos..] == HeaderLines(hs) + CRLF + body && r.state == HEADERS
    requires forall h <- hs :: IsHeader(h)
    requires IsForm(r.(headers := AddAll(r.headers, hs))) ==> PercentsComplete(FirstLine(body))
    ensures InBounds(b, pos, r, verdict)
    ensures ParseFrom(b, pos, r, verdict) == (true, AfterBody(r.(headers := AddAll(r.headers, hs)), body, verdict))
    decreases |hs|
  {
    hide ParsePost, HeaderLine, InBounds, ParseFrom, FirstLine;
    if hs == [] {
      BlankLineRoundTrip(b, pos, r, body, verdict);
    } else {
      assert hs[0] in hs;
      HeaderTextIsOneLine(hs[0]);
      var line, rest := HeaderText(hs[0]), HeaderLines(hs[1..]) + CRLF + body;
      assert b[pos..] == line + CRLF + rest;
      LineEndAt(b, pos, line, rest);
      var q := r.(headers := r.headers[hs[0].0 := hs[0].1]);
      HeadersRoundTrip(b, pos + |line| + 2, q, hs[1..], body, verdict);
      TakenLine(b, pos, pos + |line|, r, q, verdict);
    }
  }

  /** The blank line and what follows it. */
  lemma BlankLineRoundTrip(b: bytes, pos: nat, r: Req, body: bytes, verdict: bool)
    requires pos <= |b| && b[pos..] == [] + CRLF + body && r.state == HEADERS
    requires IsForm(r) ==> PercentsComplete(FirstLine(body))
    ensures InBounds(b, pos, r, verdict) && ParseFrom(b, pos, r, verdict) == (true, AfterBody(r, body, verdict))
  {
    hide ParsePost, FirstLine;
    LineEndAt(b, pos, [], body);
    assert HeaderLine([]) == None;
    assert |b[pos..]| == 2 + |body|;
    var q := if body == [] then r.(state := FINISH) else r.(state := BODY);
    assert Step(r, [], |b| - pos <= 2, verdict) == Some(q);
    if body != [] {
      BodyRoundTrip(b, pos + 2, q, body, verdict);
      var line := FirstLine(body);
      assert q.(body := line) == r.(state := BODY, body := line);
      BodyForgetsState(r, line, verdict);
    }
  }

  lemma BodyRoundTrip(b: bytes, pos: nat, r: Req, body: bytes, verdict: bool)
    requires pos <= |b| && b[pos..] == body && r.state == BODY
    requires IsForm(r) ==> PercentsComplete(FirstLine(body))
    ensures InBounds(b, pos, r, verdict)
    ensures ParseFrom(b, pos, r, verdict) == (true, ParsePost(r.(body := FirstLine(body)), verdict).(state := FINISH))
  {
    hide ParsePost;
    LineEndInRest(b, pos, body);
  }

  lemma BodyForgetsState(r: Req, body: bytes, verdict: bool)
    requires IsForm(r) ==> PercentsComplete(body)
    ensures ParsePost(r.(state := BODY, body := body), verdict).(state := FINISH) ==
            ParsePost(r.(body := body), verdict).(state := FINISH)
  {
  }

  /** Every request written out in full is read back: method, mapped path, version, headers, and its body up to a CRLF. */
  lemma {:induction false} RequestRoundTrip(m: bytes, p: bytes, v: bytes, hs: seq<Header>, body: bytes, verdict: bool)
    requires SPACE !in m && SPACE !in p && SPACE !in v && CrlfFree(RequestText(m, p, v))
    requires forall h <- hs :: IsHeader(h)
    requires var r := Req(HEADERS, m, MapPath(p), v, [], AddAll(map[], hs), map[]);
             IsForm(r) ==> PercentsComplete(FirstLine(body))
    ensures var b := Serialise(m, p, v, hs, body);
            && InBounds(b, 0, EMPTY, verdict)
            && ParseFrom(b, 0, EMPTY, verdict) ==
               (true, AfterBody(Req(HEADERS, m, MapPath(p), v, [], AddAll(map[], hs), map[]), body, verdict))
  {
    hide ParsePost, RequestLine, MapPath, HeaderLines, AddAll, InBounds, ParseFrom, RequestText, FirstLine;
    var b := Serialise(m, p, v, hs, body);
    var line, rest := RequestText(m, p, v), HeaderLines(hs) + CRLF + body;
    var q := Req(HEADERS, m, MapPath(p), v, [], map[], map[]);
    assert b[0..] == line + CRLF + rest;
    LineEndAt(b, 0, line, rest);
    RequestLineFound(m, p, v);
    HeadersRoundTrip(b, |line| + 2, q, hs, body, verdict);
    TakenLine(b, 0, |line|, EMPTY, q, verdict);
  }

  /** For every method but POST, and whenever there is no body, that is all there is: nothing else is filled in. */
  lemma NonPostRoundTrip(m: bytes, p: bytes, v: bytes, hs: seq<Header>, body: bytes, verdict: bool)
    requires SPACE !in m && SPACE !in p && SPACE !in v && CrlfFree(RequestText(m, p, v))
    requires (m != Ascii("POST") || body == []) && forall h <- hs :: IsHeader(h)
    ensures var b := Serialise(m, p, v, hs, body);
            && InBounds(b, 0, EMPTY, verdict)
            && ParseFrom(b, 0, EMPTY, verdict) ==
               (true, Req(FINISH, m, MapPath(p), v, FirstLine(body), AddAll(map[], hs), map[]))
  {
    hide MapPath, ParseFrom, InBounds;
    RequestRoundTrip(m, p, v, hs, body, verdict);
  }

  /** A POST that is no form keeps its body as it came, and looking for its type leaves an entry for it. */
  lemma OtherPostRoundTrip(p: bytes, v: bytes, hs: seq<Header>, body: bytes, verdict: bool)
    requires SPACE !in p && SPACE !in v && CrlfFree(RequestText(Ascii("POST"), p, v))
    requires body != [] && forall h <- hs :: IsHeader(h)
    requires var headers := AddAll(map[], hs);
             var key := Ascii("Content-Type");
             key !in headers || headers[key] != Ascii("application/x-www-form-urlencoded")
    ensures var b, headers, key := Serialise(Ascii("POST"), p, v, hs, body), AddAll(map[], hs), Ascii("Content-Type");
            && InBounds(b, 0, EMPTY, verdict)
            && ParseFrom(b, 0, EMPTY, verdict) ==
               (true, Req(FINISH, Ascii("POST"), MapPath(p), v, FirstLine(body),
                          if key in headers then headers else headers[key := []], map[]))
  {
    hide MapPath, ParseFrom, InBounds, FirstLine, AddAll;
    assert SPACE !in POST;
    RequestRoundTrip(POST, p, v, hs, body, verdict);
  }

  ghost predicate DistinctNames(hs: seq<Header>) {
    forall i, j :: 0 <= i < j < |hs| ==> hs[i].0 != hs[j].0
  }

  /** Headers under distinct names are all there, and no others. */
  lemma {:induction false} DistinctHeadersKept(m: Fields, hs: seq<Header>)
    requires DistinctNames(hs) && forall h <- hs :: h.0 !in m
    ensures forall h <- hs :: h.0 in AddAll(m, hs) && AddAll(m, hs)[h.0] == h.1
    ensures forall k <- AddAll(m, hs) :: k in m || exists h <- hs :: h.0 == k
    ensures forall k <- m :: k in AddAll(m, hs) && AddAll(m, hs)[k] == m[k]
    decreases |hs|
  {
    if hs != [] {
      var m' := m[hs[0].0 := hs[0].1];
      forall h <- hs[1..] ensures h.0 !in m' {
        assert h in hs;
      }
      DistinctHeadersKept(m', hs[1..]);
      assert hs[0] in hs && hs[0].0 in m';
      assert forall h <- hs :: h == hs[0] || h in hs[1..];
    }
  }

  /** The last header of a name is the one that counts. */
  lemma {:induction false} HeadersExtend(m: Fields, hs: seq<Header>, h: Header)
    ensures AddAll(m, hs + [h]) == AddAll(m, hs)[h.0 := h.1]
    decreases |hs|
  {
    if hs != [] {
      assert (hs + [h])[1..] == hs[1..] + [h];
      HeadersExtend(m[hs[0].0 := hs[0].1], hs[1..], h);
    }
  }

  /** Reading after touching is reading with a default. */
  lemma TouchedReads(post: Fields)
    ensures var q := Touch(Touch(post, USERNAME), PASSWORD);
            && USERNAME in q && PASSWORD in q
            && q[USERNAME] == GetPost(post, USERNAME) && q[PASSWORD] == GetPost(post, PASSWORD)
  {
    assert USERNAME[0] == 'u' as int && PASSWORD[0] == 'p' as int;
  }

  /** Headers that say a form is posted. */
  ghost predicate FormHeaders(hs: seq<Header>) {
    && (forall h <- hs :: IsHeader(h))
    && Ascii("Content-Type") in AddAll(map[], hs)
    && AddAll(map[], hs)[Ascii("Content-Type")] == Ascii("application/x-www-form-urlencoded")
  }

  /** The fields that arrive from a form of these pairs. */
  function FieldsOf(ps: seq<(bytes, bytes)>): Fields
    requires ps != []
  {
    AddLast(MapOf(ps[..|ps| - 1]), ps[|ps| - 1])
  }

  lemma {:induction false} FormArrives(
    p: bytes, v: bytes, hs: seq<Header>, ps: seq<(bytes, bytes)>, body: bytes, verdict: bool)
    requires SPACE !in p && SPACE !in v && CrlfFree(RequestText(POST, p, v)) && FormHeaders(hs)
    requires AreClean(ps) && ps != [] && FirstLine(body) == Encode(ps)
    ensures var b, q := Serialise(POST, p, v, hs, body),
                        Req(FINISH, POST, MapPath(p), v, Plain(ps), AddAll(map[], hs), FieldsOf(ps));
            InBounds(b, 0, EMPTY, verdict) && ParseFrom(b, 0, EMPTY, verdict) == (true, AfterLogin(q, verdict))
  {
    hide MapPath, ParseFrom, InBounds, Rewrite, Decode, Encode, Plain, AddAll, AddLast, MapOf, Serialise, IsTagged;
    DecodeEncode(ps);
    assert SPACE !in POST;
    EncodedForm(ps);
    RequestRoundTrip(POST, p, v, hs, body, verdict);
  }

  lemma EncodedForm(ps: seq<(bytes, bytes)>)
    requires AreClean(ps) && ps != []
    ensures Encode(ps) != [] && PercentsComplete(Encode(ps)) && Rewrite(Encode(ps)) == Plain(ps)
  {
    PlainIsClean(ps);
    RewriteUndoesPlus(Plain(ps));
    EncodeKeepsLength(Plain(ps));
  }

  predicate IsLoginPath(p: bytes) {
    p == Ascii("/login") || p == Ascii("/login.html") || p == Ascii("/reigster.html")
  }

  /** A form posted to any other page arrives as its fields, with its body in decoded form. */
  lemma FormRoundTrip(p: bytes, v: bytes, hs: seq<Header>, ps: seq<(bytes, bytes)>, body: bytes, verdict: bool)
    requires SPACE !in p && SPACE !in v && CrlfFree(RequestText(Ascii("POST"), p, v)) && FormHeaders(hs)
    requires AreClean(ps) && ps != [] && FirstLine(body) == Encode(ps) && !IsLoginPath(p)
    ensures var b := Serialise(Ascii("POST"), p, v, hs, body);
            && InBounds(b, 0, EMPTY, verdict)
            && ParseFrom(b, 0, EMPTY, verdict) ==
               (true, Req(FINISH, Ascii("POST"), MapPath(p), v, Plain(ps), AddAll(map[], hs), FieldsOf(ps)))
  {
    hide MapPath, ParseFrom, InBounds, Encode, AddAll, Serialise, IsTagged, RequestText, FirstLine, FormHeaders;
    UserCheckIff(p);
    FormArrives(p, v, hs, ps, body, verdict);
  }

  /**
   A form posted to a login page leads to the welcome page if and only if it holds a
   non-empty user and password and the database agrees, else to the error page. The
   fields are those of the form, and empty ones for user and password if it lacks them.
   */
  lemma LoginIff(p: bytes, v: bytes, hs: seq<Header>, ps: seq<(bytes, bytes)>, body: bytes, verdict: bool)
    requires SPACE !in p && SPACE !in v && CrlfFree(RequestText(Ascii("POST"), p, v)) && FormHeaders(hs)
    requires AreClean(ps) && ps != [] && FirstLine(body) == Encode(ps) && IsLoginPath(p)
    ensures var (ok, q) := ParseFrom(Serialise(Ascii("POST"), p, v, hs, body), 0, EMPTY, verdict);
            var user, pwd := GetPost(FieldsOf(ps), Ascii("username")), GetPost(FieldsOf(ps), Ascii("password"));
            && ok && q.post.Keys == FieldsOf(ps).Keys + {Ascii("username"), Ascii("password")}
            && (forall k <- q.post :: q.post[k] == GetPost(FieldsOf(ps), k))
            && q.path == (if user != [] && pwd != [] && verdict then Ascii("/welcome.html") else Ascii("/error.html"))
            && q == Req(FINISH, Ascii("POST"), q.path, v, Plain(ps), AddAll(map[], hs), q.post)
  {
    hide MapPath, ParseFrom, InBounds, Encode, AddAll, Serialise, IsTagged, RequestText, FirstLine, FormHeaders, FieldsOf;
    UserCheckIff(p);
    FormArrives(p, v, hs, ps, body, verdict);
  }

  lemma {:induction false} EncodeKeepsLength(t: bytes)
    ensures |PlusForSpace(t)| == |t|
  {
    if t != [] {
      EncodeKeepsLength(t[1..]);
    }
  }

  // ---- the class ----

  class HttpRequest {
    var state: ParseState
    var meth: bytes
    var path: bytes
    var version: bytes
    var body: bytes
    var headers: Fields
    var post: Fields

    function View(): Req
      reads this
    {
      Req(state, meth, path, version, body, headers, post)
    }

    constructor ()
      ensures View() == EMPTY
    {
      state, meth, path, version, body, headers, post := REQUEST_LINE, [], [], [], [], map[], map[];
    }

    method Init()
      modifies this
      ensures View() == EMPTY
    {
      state, meth, path, version, body, headers, post := REQUEST_LINE, [], [], [], [], map[], map[];
    }

    /** `_ParseRequestLine` and the `_ParsePath` that follows it. */
    method ParseRequestLine(line: bytes) returns (ok: bool)
      requires state == REQUEST_LINE
      modifies this
      ensures match Step(old(View()), line, false, false)
              case None => !ok && View() == old(View())
              case Some(q) => ok && View() == q
    {
      match RequestLine(line)
      case None => ok := false;
      case Some(parts) =>
        meth, path, version := parts.0, parts.1, parts.2;
        state := HEADERS;
        ParsePath();
        ok := true;
    }

    /** `_ParsePath`; a second call would change nothing. */
    method ParsePath()
      modifies this`path
      ensures path == MapPath(old(path)) == MapPath(path)
      ensures old(path) == Ascii("/") ==> path == Ascii("/index.html")
      ensures path == old(path) || path == Ascii("/index.html") || path == old(path) + Ascii(".html")
    {
      MapPathIsIdempotent(path);
      MapPathIff(path);
      if path == SLASH {
        path := Ascii("/index.html");
      } else if path == Ascii("/facvicon.ico") {
        path := Ascii("/facvicon.ico");
      } else if IsDefaultHtml(path) {
        path := path + DOT_HTML;
      }
    }

    /** `_ParseHeaders`. */
    method ParseHeaders(line: bytes)
      requires state == HEADERS
      modifies this
      ensures Some(View()) == Step(old(View()), line, false, false)
    {
      match HeaderLine(line)
      case Some(h) => headers := headers[h.0 := h.1];
      case None => state := BODY;
    }

    /** `_ParseFromUrlencoded`. */
    method ParseForm()
      requires PercentsComplete(body)
      modifies this`body, this`post
      ensures body == Rewrite(old(body)) && post == Decode(old(body), old(post))
    {
      body, post := ParseFromUrlencoded(body, post);
    }

    /** `_ParsePost`. */
    method ParsePostBody(verdict: bool)
      requires IsForm(View()) ==> PercentsComplete(body)
      modifies this
      ensures View() == ParsePost(old(View()), verdict)
    {
      hide Rewrite, Decode, PercentsComplete;
      if meth == POST {
        headers := Touch(headers, CONTENT_TYPE);
        if headers[CONTENT_TYPE] == FORM {
          ParseForm();
          if IsTagged(path) {
            TouchedReads(post);
            post := Touch(Touch(post, USERNAME), PASSWORD);
            path := if UserVerify(post[USERNAME], post[PASSWORD], verdict) then WELCOME else ERROR;
          }
        }
      }
    }

    /** `_ParseBody`. */
    method ParseBody(line: bytes, verdict: bool)
      requires state == BODY && StepDefined(View(), line)
      modifies this
      ensures Some(View()) == Step(old(View()), line, false, verdict)
    {
      hide ParsePost;
      body := line;
      ParsePostBody(verdict);
      state := FINISH;
    }

    /** `Parse`. */
    method Parse(buf: Sds, verdict: bool) returns (ok: bool)
      requires buf.Valid()
      requires buf.Text() != [] ==> InBounds(buf.Text(), 0, View(), verdict)
      modifies this
      ensures buf.Text() == [] ==> !ok && View() == old(View())
      ensures buf.Text() != [] ==> (ok, View()) == ParseFrom(buf.Text(), 0, old(View()), verdict)
    {
      var b := buf.Text();
      if |b| <= 0 {
        return false;
      }
      ok := ParseLines(b, verdict);
    }

    /** The loop of `Parse`. */
    method ParseLines(b: bytes, verdict: bool) returns (ok: bool)
      requires InBounds(b, 0, View(), verdict)
      modifies this
      ensures (ok, View()) == ParseFrom(b, 0, old(View()), verdict)
    {
      hide ParsePost, HeaderLine, RequestLine, MapPath;
      var read := 0;
      while state != FINISH
        invariant 0 <= read && InBounds(b, read, View(), verdict)
        invariant ParseFrom(b, read, View(), verdict) == ParseFrom(b, 0, old(View()), verdict)
        invariant Rank(state) >= Rank(old(state))
        decreases |b| - read
      {
        var lineEnd := LineEnd(b, read);
        var line := b[read..lineEnd];
        StepMovesForward(View(), line, |b| - read <= 2, verdict);
        match state {
          case REQUEST_LINE =>
            var good := ParseRequestLine(line);
            if !good { return false; }
          case HEADERS =>
            ParseHeaders(line);
            if |b| - read <= 2 { state := FINISH; }
          case BODY => ParseBody(line, verdict);
        }
        read := read + (lineEnd + 2 - read);
      }
      ok := true;
    }
  }
}
