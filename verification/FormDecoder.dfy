/**
 The form decoder: it rewrites the body while it scans ('+' to a blank, two bytes
 behind each '%') and collects fields from what it has rewritten.
 */
module FormDecoder {
  import opened Bytes

  const EQUALS: byte := '=' as int
  const AMP: byte := '&' as int
  const PLUS: byte := '+' as int

  type Fields = map<bytes, bytes>

  // ---- the rewriting ----

  /** `ConvertHex`: letters count from ten, anything else stays its (signed) character code. */
  function ConvertHex(c: byte): int {
    if 'A' as int <= c <= 'Z' as int then c - 'A' as int + 10
    else if 'a' as int <= c <= 'z' as int then c - 'a' as int + 10
    else if c < 128 then c
    else c - 256
  }

  /** The `uint8_t` computed from the two bytes behind a '%'. */
  function Num(c: byte, d: byte): byte {
    (ConvertHex(c) * 16 + ConvertHex(d)) % 256
  }

  /** Every '%' that the scan meets has its two bytes. */
  predicate PercentsComplete(t: bytes)
    decreases |t|
  {
    if t == [] then true
    else if t[0] == PERCENT then |t| >= 3 && PercentsComplete(t[3..])
    else PercentsComplete(t[1..])
  }

  function Rewrite(t: bytes): (r: bytes)
    requires PercentsComplete(t)
    ensures |r| == |t|
    decreases |t|
  {
    if t == [] then []
    else if t[0] == PERCENT then [PERCENT, Num(t[1], t[2]) / 10, Num(t[1], t[2]) % 10] + Rewrite(t[3..])
    else [if t[0] == PLUS then SPACE else t[0]] + Rewrite(t[1..])
  }

  /**
   An escape of two hexadecimal digits keeps its three bytes, the last two of them set
   to a number in decimal; it is the number the digits stand for exactly when the
   second one is a letter.
   */
  lemma EscapeIs(c: byte, d: byte, v: nat, w: nat, rest: bytes)
    requires HexValue(c, v) && HexValue(d, w) && PercentsComplete(rest)
    ensures var t := ['%' as int, c, d] + rest;
            var n := if '0' as int <= d <= '9' as int then (16 * v + w + 48) % 256 else 16 * v + w;
            && PercentsComplete(t) && Rewrite(t) == ['%' as int, n / 10, n % 10] + Rewrite(rest)
            && (n == 16 * v + w <==> !('0' as int <= d <= '9' as int))
  {
    hide Num, HexValue;
    var t := ['%' as int, c, d] + rest;
    assert t[3..] == rest;
    NumIs(c, d, v, w);
  }

  lemma NumIs(c: byte, d: byte, v: nat, w: nat)
    requires HexValue(c, v) && HexValue(d, w)
    ensures v < 16 && w < 16
    ensures Num(c, d) == if '0' as int <= d <= '9' as int then (16 * v + w + 48) % 256 else 16 * v + w
  {
    DigitConverts(c, v);
    DigitConverts(d, w);
    hide HexValue, ConvertHex;
    Wraps(v, w);
  }

  lemma Wraps(v: nat, w: nat)
    requires v < 16 && w < 16
    ensures (v * 16 + w) % 256 == ((v + 48) * 16 + w) % 256 == 16 * v + w
    ensures (v * 16 + (w + 48)) % 256 == ((v + 48) * 16 + (w + 48)) % 256 == (16 * v + w + 48) % 256
  {
    assert (v + 48) * 16 == v * 16 + 3 * 256;
  }

  lemma DigitConverts(c: byte, v: nat)
    requires HexValue(c, v)
    ensures ConvertHex(c) == if '0' as int <= c <= '9' as int then v + 48 else v
  {
  }

  // ---- the fields ----

  predicate IsDelim(c: byte) {
    c == EQUALS || c == AMP
  }

  /** Where the first '=' or '&' is, or the length. */
  function NextDelim(t: bytes): (n: nat)
    ensures n <= |t| && (n < |t| ==> IsDelim(t[n])) && forall k :: 0 <= k < n ==> !IsDelim(t[k])
  {
    if t == [] || IsDelim(t[0]) then 0 else 1 + NextDelim(t[1..])
  }

  /**
   Fields of rewritten text `t` when `key` is the current key: '=' makes the piece
   before it the key, '&' stores the piece before it, and the piece at the very end
   is stored only under a new key and when it is not empty.
   */
  function Assign(t: bytes, key: bytes, post: Fields): Fields
    decreases |t|
  {
    var n := NextDelim(t);
    if n == |t| then (if key !in post && t != [] then post[key := t] else post)
    else if t[n] == EQUALS then Assign(t[n + 1..], t[..n], post)
    else Assign(t[n + 1..], key, post[key := t[..n]])
  }

  function Decode(body: bytes, post: Fields): Fields
    requires PercentsComplete(body)
  {
    if body == [] then post else Assign(Rewrite(body), [], post)
  }

  /** A stretch of text up to a delimiter: '=', or else '&'. */
  datatype Piece = Piece(text: bytes, eq: bool)

  predicate IsPiece(t: bytes) {
    '=' as int !in t && '&' as int !in t
  }

  function TextOf(ps: seq<Piece>, last: bytes): bytes {
    if ps == [] then last
    else ps[0].text + [if ps[0].eq then '=' as int else '&' as int] + TextOf(ps[1..], last)
  }

  /** The piece before the latest '='. */
  function KeyAfter(ps: seq<Piece>, key: bytes): bytes {
    if ps == [] then key
    else if ps[|ps| - 1].eq then ps[|ps| - 1].text
    else KeyAfter(ps[..|ps| - 1], key)
  }

  /** Every piece before an '&' is stored under the key of that moment, whether or not an '=' came with it. */
  function Stored(ps: seq<Piece>, key: bytes, post: Fields): Fields {
    if ps == [] then post
    else
      var init, p := ps[..|ps| - 1], ps[|ps| - 1];
      if p.eq then Stored(init, key, post) else Stored(init, key, post)[KeyAfter(init, key) := p.text]
  }

  /** What the scan makes of any text at all, cut at its delimiters. */
  lemma {:induction false} AssignPieces(ps: seq<Piece>, last: bytes, key: bytes, post: Fields)
    requires IsPiece(last) && forall p <- ps :: IsPiece(p.text)
    ensures Assign(TextOf(ps, last), key, post) == AddLast(Stored(ps, key, post), (KeyAfter(ps, key), last))
    decreases |ps|
  {
    hide AddLast;
    if ps == [] {
      LastPiece(last, key, post);
    } else {
      var p, rest := ps[0], ps[1..];
      assert p in ps;
      var post' := if p.eq then post else post[key := p.text];
      FirstPiece(p, TextOf(rest, last), key, post);
      AssignPieces(rest, last, if p.eq then p.text else key, post');
      FoldFirst(ps, key, post);
    }
  }

  lemma LastPiece(last: bytes, key: bytes, post: Fields)
    requires IsPiece(last)
    ensures Assign(last, key, post) == AddLast(post, (key, last))
  {
    forall k | 0 <= k < |last| ensures !IsDelim(last[k]) {
      assert last[k] in last;
    }
    assert NextDelim(last) == |last|;
  }

  lemma FirstPiece(p: Piece, rest: bytes, key: bytes, post: Fields)
    requires IsPiece(p.text)
    ensures Assign(p.text + [if p.eq then '=' as int else '&' as int] + rest, key, post) ==
            if p.eq then Assign(rest, p.text, post) else Assign(rest, key, post[key := p.text])
  {
    var c: byte := if p.eq then '=' as int else '&' as int;
    var t := p.text + [c] + rest;
    NextDelimAt(p.text, c, rest);
    assert t[..|p.text|] == p.text && t[|p.text| + 1..] == rest;
  }

  lemma {:induction false} FoldFirst(ps: seq<Piece>, key: bytes, post: Fields)
    requires ps != []
    ensures var p := ps[0];
            var key', post' := if p.eq then p.text else key, if p.eq then post else post[key := p.text];
            Stored(ps, key, post) == Stored(ps[1..], key', post') && KeyAfter(ps, key) == KeyAfter(ps[1..], key')
    decreases |ps|
  {
    if |ps| > 1 {
      FoldFirst(ps[..|ps| - 1], key, post);
      assert ps[..|ps| - 1][1..] == ps[1..][..|ps| - 2];
    }
  }

  /** Every text is cut that way. */
  lemma {:induction false} PiecesOf(t: bytes) returns (ps: seq<Piece>, last: bytes)
    ensures TextOf(ps, last) == t && IsPiece(last) && forall p <- ps :: IsPiece(p.text)
    decreases |t|
  {
    var n := NextDelim(t);
    if n == |t| {
      ps, last := [], t;
    } else {
      var more;
      more, last := PiecesOf(t[n + 1..]);
      ps := [Piece(t[..n], t[n] == EQUALS)] + more;
      assert ps[1..] == more && t == t[..n] + [t[n]] + t[n + 1..];
    }
  }

  /** What decoding any body gives: its rewritten text, cut at the delimiters, as fields. */
  lemma DecodePieces(body: bytes, post: Fields) returns (ps: seq<Piece>, last: bytes)
    requires PercentsComplete(body)
    ensures Rewrite(body) == TextOf(ps, last) && IsPiece(last) && forall p <- ps :: IsPiece(p.text)
    ensures Decode(body, post) == AddLast(Stored(ps, [], post), (KeyAfter(ps, []), last))
  {
    hide TextOf, Assign, Stored, KeyAfter, AddLast, IsPiece;
    ps, last := PiecesOf(Rewrite(body));
    AssignPieces(ps, last, [], post);
    if body == [] {
      NoFields(post);
    }
  }

  lemma NoFields(post: Fields)
    ensures Assign([], [], post) == post
  {
  }

  // ---- encoding, and the round trip ----

  predicate IsClean(t: bytes) {
    forall c <- t :: c !in {'=' as int, '&' as int, '%' as int, '+' as int}
  }

  predicate AreClean(ps: seq<(bytes, bytes)>) {
    forall p <- ps :: IsClean(p.0) && IsClean(p.1)
  }

  function Plain(ps: seq<(bytes, bytes)>): bytes {
    if ps == [] then []
    else ps[0].0 + ['=' as int] + ps[0].1 + if |ps| == 1 then [] else ['&' as int] + Plain(ps[1..])
  }

  function PlusForSpace(t: bytes): bytes {
    if t == [] then [] else [if t[0] == ' ' as int then '+' as int else t[0]] + PlusForSpace(t[1..])
  }

  /** The form encoding of a list of pairs: pairs joined by '&', keys and values by '=', blanks as '+'. */
  function Encode(ps: seq<(bytes, bytes)>): bytes {
    PlusForSpace(Plain(ps))
  }

  function MapOf(ps: seq<(bytes, bytes)>): Fields {
    if ps == [] then map[] else MapOf(ps[..|ps| - 1])[ps[|ps| - 1].0 := ps[|ps| - 1].1]
  }

  /** The trailing pair is stored only under a new key and when its value is not empty. */
  function AddLast(m: Fields, last: (bytes, bytes)): Fields {
    if last.0 !in m && last.1 != [] then m[last.0 := last.1] else m
  }

  lemma {:induction false} RewriteUndoesPlus(t: bytes)
    requires PERCENT !in t && PLUS !in t
    ensures PercentsComplete(PlusForSpace(t)) && Rewrite(PlusForSpace(t)) == t
  {
    if t != [] {
      RewriteUndoesPlus(t[1..]);
      assert PlusForSpace(t)[1..] == PlusForSpace(t[1..]);
      assert t[0] in t;
    }
  }

  lemma {:induction false} PlainIsClean(ps: seq<(bytes, bytes)>)
    requires AreClean(ps)
    ensures PERCENT !in Plain(ps) && PLUS !in Plain(ps)
  {
    if ps != [] {
      assert ps[0] in ps;
      PlainIsClean(ps[1..]);
    }
  }

  lemma NextDelimAt(a: bytes, c: byte, b: bytes)
    requires IsPiece(a) && IsDelim(c)
    ensures NextDelim(a + [c] + b) == |a|
  {
    var t := a + [c] + b;
    assert t[|a|] == c;
    forall k | 0 <= k < |a| ensures !IsDelim(t[k]) {
      assert t[k] == a[k] && a[k] in a;
    }
  }

  /** One pair in front of more text. */
  lemma AssignPair(k: bytes, v: bytes, rest: bytes, key: bytes, post: Fields)
    requires IsClean(k) && IsClean(v)
    ensures Assign(k + [EQUALS] + (v + [AMP] + rest), key, post) == Assign(rest, k, post[k := v])
  {
    NextDelimAt(k, EQUALS, v + [AMP] + rest);
    NextDelimAt(v, AMP, rest);
    var t, u := k + [EQUALS] + (v + [AMP] + rest), v + [AMP] + rest;
    assert t[..|k|] == k && t[|k| + 1..] == u;
    assert u[..|v|] == v && u[|v| + 1..] == rest;
  }

  lemma AssignLast(k: bytes, v: bytes, key: bytes, post: Fields)
    requires IsClean(k) && IsClean(v)
    ensures Assign(k + [EQUALS] + v, key, post) == AddLast(post, (k, v))
  {
    NextDelimAt(k, EQUALS, v);
    var t := k + [EQUALS] + v;
    assert t[..|k|] == k && t[|k| + 1..] == v;
    forall k | 0 <= k < |v| ensures !IsDelim(v[k]) {
      assert v[k] in v;
    }
  }

  lemma PlainUnfolds(ps: seq<(bytes, bytes)>)
    requires |ps| > 1
    ensures Plain(ps) == ps[0].0 + [EQUALS] + (ps[0].1 + [AMP] + Plain(ps[1..]))
  {
  }

  lemma PlainOne(ps: seq<(bytes, bytes)>)
    requires |ps| == 1
    ensures Plain(ps) == ps[0].0 + [EQUALS] + ps[0].1
  {
  }

  lemma MapOfExtends(done: seq<(bytes, bytes)>, p: (bytes, bytes))
    ensures MapOf(done + [p]) == MapOf(done)[p.0 := p.1]
  {
  }

  /** Decoding pairs behind those already stored. */
  lemma {:induction false} AssignPlain(done: seq<(bytes, bytes)>, ps: seq<(bytes, bytes)>, key: bytes)
    requires ps != [] && AreClean(ps)
    ensures Assign(Plain(ps), key, MapOf(done)) == AddLast(MapOf(done + ps[..|ps| - 1]), ps[|ps| - 1])
    decreases |ps|
  {
    hide Assign, MapOf, AddLast, IsClean, Plain;
    var p := ps[0];
    assert p in ps;
    if |ps| == 1 {
      assert done + ps[..0] == done;
      PlainOne(ps);
      AssignLast(p.0, p.1, key, MapOf(done));
    } else {
      var rest := ps[1..];
      PlainUnfolds(ps);
      MapOfExtends(done, p);
      AssignPair(p.0, p.1, Plain(rest), key, MapOf(done));
      AssignPlain(done + [p], rest, p.0);
      assert done + [p] + rest[..|rest| - 1] == done + ps[..|ps| - 1];
    }
  }

  /** What decoding an encoded list gives, for every list of clean pairs. */
  lemma DecodeEncode(ps: seq<(bytes, bytes)>)
    requires AreClean(ps)
    ensures PercentsComplete(Encode(ps))
    ensures ps == [] ==> Decode(Encode(ps), map[]) == map[]
    ensures ps != [] ==> Decode(Encode(ps), map[]) == AddLast(MapOf(ps[..|ps| - 1]), ps[|ps| - 1])
  {
    PlainIsClean(ps);
    RewriteUndoesPlus(Plain(ps));
    if ps != [] {
      AssignPlain([], ps, []);
      assert [] + ps[..|ps| - 1] == ps[..|ps| - 1];
      assert Rewrite(Encode(ps)) == Plain(ps) != [];
    }
  }

  /**
   Decoding inverts encoding exactly when the last pair is a non-empty value under
   a key not used before, or repeats what that key already holds.
   */
  lemma {:induction false} RoundTripIff(ps: seq<(bytes, bytes)>)
    requires AreClean(ps) && ps != []
    ensures PercentsComplete(Encode(ps))
    ensures var m, last := MapOf(ps[..|ps| - 1]), ps[|ps| - 1];
            Decode(Encode(ps), map[]) == MapOf(ps) <==>
            if last.0 in m then m[last.0] == last.1 else last.1 != []
  {
    hide Decode, Encode, PercentsComplete, IsClean;
    DecodeEncode(ps);
    AddLastIff(MapOf(ps[..|ps| - 1]), ps[|ps| - 1]);
  }

  /** A single key with an empty value is lost. */
  lemma EmptyLastValueIsLost(k: bytes)
    requires IsClean(k)
    ensures PercentsComplete(Encode([(k, [])])) && Decode(Encode([(k, [])]), map[]) == map[] != MapOf([(k, [])])
  {
    hide Decode, Encode, PercentsComplete, IsClean;
    var ps: seq<(bytes, bytes)> := [(k, [])];
    CleanOne(k);
    DecodeEncode(ps);
    assert ps[..0] == [];
    assert k in MapOf(ps);
  }

  lemma CleanOne(k: bytes)
    requires IsClean(k)
    ensures AreClean([(k, [])])
  {
  }

  lemma AddLastIff(m: Fields, last: (bytes, bytes))
    ensures AddLast(m, last) == m[last.0 := last.1] <==>
            if last.0 in m then m[last.0] == last.1 else last.1 != []
  {
  }

  // ---- the code ----

  /** What is known when the scan stands at `i`, the current piece began at `j`, and `fields` is the final answer. */
  ghost predicate Scanned(body: bytes, now: bytes, i: nat, j: nat, key: bytes, post: Fields, fields: Fields)
    requires PercentsComplete(body)
  {
    && j <= i <= |body| && |now| == |body| && PercentsComplete(body[i..])
    && now[i..] == body[i..] && Rewrite(body) == now[..i] + Rewrite(body[i..])
    && (forall k :: j <= k < i ==> !IsDelim(now[k]))
    && fields == Assign(Rewrite(body)[j..], key, post)
  }

  lemma ScanStarts(body: bytes, key: bytes, post: Fields)
    requires PercentsComplete(body)
    ensures Scanned(body, body, 0, 0, key, post, Assign(Rewrite(body), key, post))
  {
  }

  /** The scan passes `piece` bytes that are no delimiters, leaving `piece` in their place. */
  lemma ScanPasses(body: bytes, now: bytes, i: nat, j: nat, key: bytes, post: Fields, fields: Fields, piece: bytes)
    requires PercentsComplete(body) && Scanned(body, now, i, j, key, post, fields)
    requires i + |piece| <= |body| && PercentsComplete(body[i + |piece|..])
    requires Rewrite(body[i..]) == piece + Rewrite(body[i + |piece|..])
    requires forall c <- piece :: !IsDelim(c)
    ensures Scanned(body, now[..i] + piece + now[i + |piece|..], i + |piece|, j, key, post, fields)
  {
    hide Rewrite, Assign, PercentsComplete, IsDelim;
    var next := now[..i] + piece + now[i + |piece|..];
    PassedSeqs(body, now, i, piece, Rewrite(body[i + |piece|..]));
    forall k | j <= k < i + |piece| ensures !IsDelim(next[k]) {
      if k >= i {
        assert next[k] == piece[k - i] && piece[k - i] in piece;
      } else {
        assert next[k] == now[k];
      }
    }
  }

  lemma PassedSeqs(body: bytes, now: bytes, i: nat, piece: bytes, rest: bytes)
    requires |now| == |body| && i + |piece| <= |body| && now[i..] == body[i..]
    ensures var n, next := i + |piece|, now[..i] + piece + now[i + |piece|..];
            && |next| == |body| && next[n..] == body[n..]
            && now[..i] + (piece + rest) == next[..n] + rest
  {
  }

  /** The delimiter at `i` ends the current piece. */
  lemma ScanDelim(body: bytes, now: bytes, i: nat, j: nat, key: bytes, post: Fields, fields: Fields)
    requires PercentsComplete(body) && Scanned(body, now, i, j, key, post, fields)
    requires i < |body| && IsDelim(now[i])
    ensures var piece := now[j..i];
            if now[i] == EQUALS then Scanned(body, now, i + 1, i + 1, piece, post, fields)
            else Scanned(body, now, i + 1, i + 1, key, post[key := piece], fields)
  {
    AtScan(body, now, i, j, key, post, fields);
    var tail := Rewrite(body[i + 1..]);
    DelimRewrites(body, now, i);
    assert Rewrite(body) == now[..i] + ([now[i]] + tail);
    DelimSeqs(now, Rewrite(body), i, j, tail);
    DelimAssigns(Rewrite(body)[j..], now, i, j, key, post);
    assert now[i + 1..] == now[i..][1..] && body[i + 1..] == body[i..][1..];
  }

  lemma DelimRewrites(body: bytes, now: bytes, i: nat)
    requires i < |body| && |now| == |body| && now[i..] == body[i..] && PercentsComplete(body[i..])
    requires IsDelim(now[i])
    ensures PercentsComplete(body[i + 1..]) && Rewrite(body[i..]) == [now[i]] + Rewrite(body[i + 1..])
  {
  }

  lemma DelimSeqs(now: bytes, r: bytes, i: nat, j: nat, tail: bytes)
    requires j <= i < |now| && |r| == |now| && r == now[..i] + ([now[i]] + tail)
    ensures r == now[..i + 1] + tail && r[j..][..i - j] == now[j..i]
    ensures r[j..][i - j] == now[i] && r[j..][i - j + 1..] == r[i + 1..]
    ensures forall k :: j <= k < i ==> r[j..][k - j] == now[k]
  {
  }

  lemma DelimAssigns(t: bytes, now: bytes, i: nat, j: nat, key: bytes, post: Fields)
    requires j <= i < |now| && i - j < |t| && t[i - j] == now[i] && IsDelim(now[i])
    requires forall k :: j <= k < i ==> t[k - j] == now[k] && !IsDelim(now[k])
    ensures Assign(t, key, post) ==
            if now[i] == EQUALS then Assign(t[i - j + 1..], t[..i - j], post)
            else Assign(t[i - j + 1..], key, post[key := t[..i - j]])
  {
    forall k | 0 <= k < i - j ensures !IsDelim(t[k]) {
      assert t[k] == now[k + j];
    }
    assert NextDelim(t) == i - j;
  }

  lemma ScanEnds(body: bytes, now: bytes, j: nat, key: bytes, post: Fields, fields: Fields)
    requires PercentsComplete(body) && Scanned(body, now, |body|, j, key, post, fields)
    ensures now == Rewrite(body)
    ensures fields == if key !in post && j < |body| then post[key := now[j..]] else post
  {
  }

  /** `_ParseFromUrlencoded` on the strings it reads and writes. */
  method ParseFromUrlencoded(body: bytes, post: Fields) returns (body': bytes, post': Fields)
    requires PercentsComplete(body)
    ensures body' == Rewrite(body) && post' == Decode(body, post)
  {
    hide Scanned, Rewrite, Assign;
    body', post' := body, post;
    if |body| <= 0 {
      EmptyRewrites(body);
      return;
    }
    ghost var fields := Assign(Rewrite(body), [], post);
    var i: nat, j: nat := 0, 0;
    var key: bytes := [];
    var n := |body|;
    ScanStarts(body, key, post);
    while i < n
      invariant j <= i <= n && |body'| == n
      invariant Scanned(body, body', i, j, key, post', fields)
    {
      var c := body'[i];
      AtScan(body, body', i, j, key, post', fields);
      if c == EQUALS {
        ScanDelim(body, body', i, j, key, post', fields);
        key := body'[j..i];
        j := i + 1;
        i := i + 1;
      } else if c == AMP {
        ScanDelim(body, body', i, j, key, post', fields);
        post' := post'[key := body'[j..i]];
        j := i + 1;
        i := i + 1;
      } else if c == PERCENT {
        var num := Num(body'[i + 1], body'[i + 2]);
        ScanPasses(body, body', i, j, key, post', fields, [PERCENT, num / 10, num % 10]);
        PutThree(body', i, num / 10, num % 10);
        body' := body'[i + 2 := num % 10];
        body' := body'[i + 1 := num / 10];
        i := i + 3;
      } else {
        var d := if c == PLUS then SPACE else c;
        ScanPasses(body, body', i, j, key, post', fields, [d]);
        assert body'[..i] + [d] + body'[i + 1..] == body'[i := d];
        body' := body'[i := d];
        i := i + 1;
      }
    }
    ScanEnds(body, body', j, key, post', fields);
    if key !in post' && j < i {
      assert body'[j..i] == body'[j..];
      post' := post'[key := body'[j..i]];
    }
  }

  lemma EmptyRewrites(body: bytes)
    requires body == []
    ensures Rewrite(body) == body
  {
  }

  /** What the rewriting does to the byte under the scan. */
  lemma AtScan(body: bytes, now: bytes, i: nat, j: nat, key: bytes, post: Fields, fields: Fields)
    requires PercentsComplete(body) && Scanned(body, now, i, j, key, post, fields) && i < |body|
    ensures var c := now[i];
            if c == PERCENT then
              && i + 3 <= |body| && PercentsComplete(body[i + 3..])
              && var num := Num(now[i + 1], now[i + 2]);
                 Rewrite(body[i..]) == [PERCENT, num / 10, num % 10] + Rewrite(body[i + 3..])
            else
              && PercentsComplete(body[i + 1..])
              && (!IsDelim(c) ==> Rewrite(body[i..]) == [if c == PLUS then SPACE else c] + Rewrite(body[i + 1..]))
  {
  }

  lemma PutThree(t: bytes, i: nat, a: byte, b: byte)
    requires i + 3 <= |t| && t[i] == PERCENT
    ensures t[i + 2 := b][i + 1 := a] == t[..i] + [PERCENT, a, b] + t[i + 3..]
  {
  }
}
