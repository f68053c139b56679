/** sdssplitlen and sdsjoinsds: tokens around a separator, each the inverse of the other. */
module SplitJoin {
  import opened Bytes
  import opened SdsHeader
  import opened SdsLayout
  import opened SdsString

  // ---- what splitting and joining mean ----

  predicate OccursAt(t: bytes, sep: bytes, j: int) {
    0 <= j && j + |sep| <= |t| && t[j..j + |sep|] == sep
  }

  /** That is: text `t` is cut by the separator into what is before `j` and what is behind. */
  lemma OccursIff(t: bytes, sep: bytes, j: nat)
    ensures OccursAt(t, sep, j) <==> exists a, b :: t == a + sep + b && |a| == j
  {
    if OccursAt(t, sep, j) {
      assert t == t[..j] + sep + t[j + |sep|..];
    }
  }

  predicate FirstOccursAt(t: bytes, sep: bytes, j: nat) {
    OccursAt(t, sep, j) && forall i: nat | i < j :: !OccursAt(t, sep, i)
  }

  predicate Absent(t: bytes, sep: bytes) {
    forall i: nat | i <= |t| :: !OccursAt(t, sep, i)
  }

  /** The first occurrence at or after `from`, or |t| when there is none. */
  function Find(t: bytes, sep: bytes, from: nat): (j: nat)
    requires sep != [] && from <= |t|
    ensures from <= j <= |t| && (j < |t| ==> OccursAt(t, sep, j))
    ensures forall i: nat | from <= i < j :: !OccursAt(t, sep, i)
    decreases |t| - from
  {
    if from == |t| || OccursAt(t, sep, from) then from else Find(t, sep, from + 1)
  }

  function Split(t: bytes, sep: bytes): (r: seq<bytes>)
    requires sep != []
    ensures r != []
    decreases |t|
  {
    var j := Find(t, sep, 0);
    if j == |t| then [t] else [t[..j]] + Split(t[j + |sep|..], sep)
  }

  function Join(ts: seq<bytes>, sep: bytes): bytes {
    if ts == [] then [] else if |ts| == 1 then ts[0] else ts[0] + sep + Join(ts[1..], sep)
  }

  /** The separator shows up in the joined tokens where it was put and nowhere before. */
  predicate Clean(ts: seq<bytes>, sep: bytes)
    decreases |ts|
  {
    if ts == [] then false
    else if |ts| == 1 then Absent(ts[0], sep)
    else FirstOccursAt(Join(ts, sep), sep, |ts[0]|) && Clean(ts[1..], sep)
  }

  /** Splitting loses nothing ... */
  lemma {:induction false} SplitThenJoin(t: bytes, sep: bytes)
    requires sep != []
    ensures Join(Split(t, sep), sep) == t
    decreases |t|
  {
    var j := Find(t, sep, 0);
    if j < |t| {
      var rest := t[j + |sep|..];
      SplitThenJoin(rest, sep);
      var ts := Split(t, sep);
      assert ts[0] == t[..j] && ts[1..] == Split(rest, sep);
      calc {
        t;
        t[..j] + t[j..j + |sep|] + rest;
        t[..j] + sep + rest;
        Join(ts, sep);
      }
    }
  }

  /** ... and no separator occurrence starts inside a token. */
  lemma {:induction false} SplitIsClean(t: bytes, sep: bytes)
    requires sep != []
    ensures Clean(Split(t, sep), sep)
    decreases |t|
  {
    var j := Find(t, sep, 0);
    if j < |t| {
      var ts, rest := Split(t, sep), t[j + |sep|..];
      SplitThenJoin(t, sep);
      SplitIsClean(rest, sep);
      assert ts[1..] == Split(rest, sep) && |ts[0]| == j;
    }
  }

  /** The tokens a caller of the code gets: none for an empty text, where the result is NULL. */
  function Tokens(t: bytes, sep: bytes): seq<bytes>
    requires sep != []
  {
    if t == [] then [] else Split(t, sep)
  }

  /** Joining the tokens of any text gives the text back. */
  lemma {:induction false} TokensJoin(t: bytes, sep: bytes)
    requires sep != []
    ensures Join(Tokens(t, sep), sep) == t
  {
    SplitThenJoin(t, sep);
  }

  /**
   Joining then splitting gives the tokens back exactly when they are clean and the
   joined text is not empty, or there are none.
   */
  lemma {:induction false} JoinThenSplit(ts: seq<bytes>, sep: bytes)
    requires sep != []
    ensures Tokens(Join(ts, sep), sep) == ts <==> ts == [] || (Join(ts, sep) != [] && Clean(ts, sep))
  {
    if Clean(ts, sep) {
      CleanSplits(ts, sep);
    }
    SplitIsClean(Join(ts, sep), sep);
  }

  lemma SplitFirst(a: bytes, sep: bytes, rest: bytes)
    requires sep != [] && FirstOccursAt(a + sep + rest, sep, |a|)
    ensures Split(a + sep + rest, sep) == [a] + Split(rest, sep)
  {
    var t := a + sep + rest;
    var j := Find(t, sep, 0);
    assert OccursAt(t, sep, |a|);
    assert j == |a|;
    SplitAt(t, sep, j);
    assert t[..j] == a && t[j + |sep|..] == rest;
  }

  lemma {:induction false} CleanSplits(ts: seq<bytes>, sep: bytes)
    requires sep != [] && Clean(ts, sep)
    ensures Split(Join(ts, sep), sep) == ts
    decreases |ts|
  {
    hide OccursAt, FirstOccursAt;
    if |ts| == 1 {
      AbsentSplits(ts[0], sep);
    } else {
      CleanSplits(ts[1..], sep);
      SplitFirst(ts[0], sep, Join(ts[1..], sep));
    }
  }

  lemma AbsentSplits(t: bytes, sep: bytes)
    requires sep != [] && Absent(t, sep)
    ensures Split(t, sep) == [t]
  {
  }

  /** No token holds the separator, and a text without it is one token. */
  lemma {:induction false} TokensAreFree(t: bytes, sep: bytes, a: bytes, b: bytes)
    requires sep != []
    ensures forall k <- Tokens(t, sep) :: k != a + sep + b
    ensures t != [] && (forall x, y :: t != x + sep + y) ==> Tokens(t, sep) == [t]
  {
    SplitIsFree(t, sep, a, b);
    if j: nat :| j <= |t| && OccursAt(t, sep, j) {
      OccursIff(t, sep, j);
    } else {
      AbsentSplits(t, sep);
    }
  }

  lemma {:induction false} SplitIsFree(t: bytes, sep: bytes, a: bytes, b: bytes)
    requires sep != []
    ensures forall k <- Split(t, sep) :: k != a + sep + b
    decreases |t|
  {
    var j := Find(t, sep, 0);
    if t[..j] == a + sep + b {
      assert t == a + sep + (b + t[j..]);
      OccursIff(t, sep, |a|);
      assert false;
    }
    if j == |t| {
      assert t[..j] == t;
    } else {
      SplitIsFree(t[j + |sep|..], sep, a, b);
    }
  }

  /** Around a separator of one byte, all lists of tokens without that byte come back. */
  lemma {:induction false} FreeTokensComeBack(ts: seq<bytes>, c: byte)
    requires ts != [] && forall k <- ts :: c !in k
    ensures Split(Join(ts, [c]), [c]) == ts
    ensures Join(ts, [c]) != [] ==> Tokens(Join(ts, [c]), [c]) == ts
  {
    FreeIsClean(ts, c);
    CleanSplits(ts, [c]);
  }

  lemma {:induction false} FreeIsClean(ts: seq<bytes>, c: byte)
    requires ts != [] && forall k <- ts :: c !in k
    ensures Clean(ts, [c])
    decreases |ts|
  {
    assert c !in ts[0];
    if |ts| > 1 {
      var tail := Join(ts[1..], [c]);
      FreeIsClean(ts[1..], c);
      assert Join(ts, [c]) == ts[0] + [c] + tail;
      FreeBefore(ts[0], c, tail);
    } else {
      FreeBefore(ts[0], c, []);
    }
  }

  lemma FreeBefore(a: bytes, c: byte, b: bytes)
    requires c !in a
    ensures FirstOccursAt(a + [c] + b, [c], |a|) && Absent(a, [c])
  {
    var t := a + [c] + b;
    assert t[|a|..|a| + 1] == [c];
    forall i: nat | i < |a| ensures !OccursAt(t, [c], i) && !OccursAt(a, [c], i) {
      assert t[i] == a[i] && a[i] in a;
      assert t[i..i + 1] == [t[i]] && a[i..i + 1] == [a[i]];
    }
  }

  /** Joining one token more puts the separator and the token behind. */
  lemma {:induction false} JoinExtends(ts: seq<bytes>, k: bytes, sep: bytes)
    ensures Join(ts + [k], sep) == if ts == [] then k else Join(ts, sep) + sep + k
    decreases |ts|
  {
    if ts != [] {
      JoinExtends(ts[1..], k, sep);
      assert (ts + [k])[1..] == ts[1..] + [k];
      if |ts| > 1 {
        JoinAssoc(ts[0], sep, Join(ts[1..], sep), k);
      }
    }
  }

  lemma JoinAssoc(a: bytes, sep: bytes, b: bytes, k: bytes)
    ensures a + sep + (b + sep + k) == a + sep + b + sep + k
  {
  }

  // ---- the code ----

  /** The strings in `a` are well formed and hold the texts `ts`. */
  ghost predicate Hold(a: seq<Sds?>, ts: seq<bytes>)
    reads a, set b | b in a && b != null :: b.mem
  {
    |a| == |ts| && forall k :: 0 <= k < |a| ==> a[k] != null && a[k].Valid() && a[k].Text() == ts[k]
  }

  lemma HoldNone(a: seq<Sds?>)
    requires a == []
    ensures Hold(a, [])
  {
  }

  /** What is known when the scan of `t` stands at `j` and the current token began at `start`. */
  ghost predicate Scanned(t: bytes, sep: bytes, done: seq<bytes>, start: nat, j: nat)
    requires sep != []
  {
    && start <= j && start <= |t| && Split(t, sep) == done + Split(t[start..], sep)
    && forall i :: start <= i < j ==> !OccursAt(t, sep, i)
  }

  lemma OccursInRest(t: bytes, sep: bytes, start: nat, i: nat)
    requires start <= i && start <= |t|
    ensures OccursAt(t[start..], sep, i - start) == OccursAt(t, sep, i)
  {
  }

  lemma FoundInRest(t: bytes, sep: bytes, start: nat, j: nat)
    requires sep != [] && start <= j && start <= |t| && OccursAt(t, sep, j)
    requires forall i :: start <= i < j ==> !OccursAt(t, sep, i)
    ensures Find(t[start..], sep, 0) == j - start < |t[start..]|
  {
    var u := t[start..];
    var f := Find(u, sep, 0);
    OccursInRest(t, sep, start, j);
    if f < j - start {
      OccursInRest(t, sep, start, start + f);
    }
  }

  lemma ScanStarts(t: bytes, sep: bytes)
    requires sep != []
    ensures Scanned(t, sep, [], 0, 0)
  {
  }

  lemma NoToken(t: bytes, sep: bytes, done: seq<bytes>, start: nat, j: nat)
    requires sep != [] && Scanned(t, sep, done, start, j) && !OccursAt(t, sep, j)
    ensures Scanned(t, sep, done, start, j + 1)
  {
  }

  lemma SplitAt(u: bytes, sep: bytes, f: nat)
    requires sep != [] && Find(u, sep, 0) == f < |u|
    ensures Split(u, sep) == [u[..f]] + Split(u[f + |sep|..], sep)
  {
  }

  lemma TokenEnds(t: bytes, sep: bytes, done: seq<bytes>, start: nat, j: nat)
    requires sep != [] && Scanned(t, sep, done, start, j) && OccursAt(t, sep, j)
    ensures Scanned(t, sep, done + [t[start..j]], j + |sep|, j + |sep|)
  {
    var u := t[start..];
    FoundInRest(t, sep, start, j);
    var f := j - start;
    assert u[..f] == t[start..j] && u[f + |sep|..] == t[j + |sep|..];
    SplitAt(u, sep, f);
    AppendAssoc(done, t[start..j], Split(t[j + |sep|..], sep));
  }

  lemma AppendAssoc<T>(a: seq<T>, x: T, b: seq<T>)
    ensures a + ([x] + b) == a + [x] + b
  {
  }

  lemma LastToken(t: bytes, sep: bytes, done: seq<bytes>, start: nat, j: nat)
    requires sep != [] && Scanned(t, sep, done, start, j) && j + |sep| > |t|
    ensures Split(t, sep) == done + [t[start..]]
  {
    var u := t[start..];
    var f := Find(u, sep, 0);
    if f < |u| {
      OccursInRest(t, sep, start, start + f);
      assert false;
    }
  }

  /** `tokens[elements] = sdsnewlen(s+start, end-start)`. */
  method PutToken(tokens: array<Sds?>, elements: nat, ghost done: seq<bytes>, t: bytes, start: nat, end: nat)
    requires elements < tokens.Length && start <= end <= |t| <= SIZE_MAX - HdrSize(TYPE_64) - 1
    requires Hold(tokens[..elements], done)
    modifies tokens
    ensures Hold(tokens[..elements + 1], done + [t[start..end]])
  {
    hide IsHeader, TypeOf, LenOf, AllocOf, AvailOf;
    ghost var before := tokens[..elements];
    var token := new Sds.NewLen(From(t[start..]), end - start);
    assert t[start..][..end - start] == t[start..end];
    assert Hold(before, done);
    tokens[elements] := token;
    assert tokens[..elements + 1] == before + [token];
  }

  /** The comparison in the loop: one byte, or `memcmp`. */
  predicate Hit(t: bytes, sep: bytes, j: nat): (hit: bool)
    requires sep != [] && j + |sep| <= |t|
    ensures hit == OccursAt(t, sep, j)
  {
    (|sep| == 1 && t[j] == sep[0]) || t[j..j + |sep|] == sep
  }

  /** The doubling of the slots. */
  method MoreSlots(tokens: array<Sds?>, elements: nat) returns (newtokens: array<Sds?>)
    requires elements <= tokens.Length
    ensures fresh(newtokens) && newtokens.Length == 2 * tokens.Length
    ensures newtokens[..elements] == tokens[..elements]
  {
    newtokens := new Sds?[2 * tokens.Length](_ => null);
    forall k | 0 <= k < tokens.Length { newtokens[k] := tokens[k]; }
  }

  /** `sdssplitlen`; NULL is `null`. */
  method SplitLen(t: bytes, sep: bytes) returns (tokens: array?<Sds?>, count: nat)
    requires |t| <= SIZE_MAX - HdrSize(TYPE_64) - 1
    ensures tokens == null <==> t == [] || sep == []
    ensures tokens == null ==> count == 0
    ensures tokens != null ==> count <= tokens.Length && Hold(tokens[..count], Tokens(t, sep))
  {
    hide Scanned, Split, Find, OccursAt, Hit, Hold;
    var len, seplen := |t|, |sep|;
    if seplen < 1 || len <= 0 {
      return null, 0;
    }
    var elements: nat, slots: nat := 0, 5;
    var start: nat, j: nat := 0, 0;
    var toks := new Sds?[slots](_ => null);
    ghost var done: seq<bytes> := [];
    ScanStarts(t, sep);
    HoldNone(toks[..0]);
    while j < len - (seplen - 1)
      invariant toks.Length == slots >= elements + 1 && fresh(toks)
      invariant start <= |t| && start <= j && Scanned(t, sep, done, start, j)
      invariant Hold(toks[..elements], done)
      decreases len - j
    {
      // make sure there is room for the next element and the final one
      if slots < elements + 2 {
        toks := MoreSlots(toks, elements);
        slots := slots * 2;
      }
      if Hit(t, sep, j) {
        PutToken(toks, elements, done, t, start, j);
        elements := elements + 1;
        TokenEnds(t, sep, done, start, j);
        done := done + [t[start..j]];
        start := j + seplen;
        j := j + seplen - 1;
      } else {
        NoToken(t, sep, done, start, j);
      }
      j := j + 1;
    }
    LastToken(t, sep, done, start, j);
    PutToken(toks, elements, done, t, start, len);
    assert t[start..len] == t[start..];
    tokens, count := toks, elements + 1;
  }

  lemma JoinStep(acc: bytes, ts: seq<bytes>, sep: bytes, j: nat)
    requires j < |ts| && acc + Join(ts[j..], sep) == Join(ts, sep)
    ensures j == |ts| - 1 ==> acc + ts[j] == Join(ts, sep)
    ensures j < |ts| - 1 ==> acc + ts[j] + sep + Join(ts[j + 1..], sep) == Join(ts, sep)
    ensures |acc + ts[j]| <= |Join(ts, sep)| && (j < |ts| - 1 ==> |acc + ts[j] + sep| <= |Join(ts, sep)|)
  {
    assert ts[j..][0] == ts[j];
    if j < |ts| - 1 {
      assert ts[j..][1..] == ts[j + 1..];
      Assoc3(acc, ts[j], sep, Join(ts[j + 1..], sep));
    }
  }

  lemma Assoc3(a: bytes, x: bytes, y: bytes, b: bytes)
    ensures a + (x + y + b) == a + x + y + b
  {
  }

  lemma JoinStarts(ts: seq<bytes>, sep: bytes)
    ensures ts[0..] == ts && [] + Join(ts, sep) == Join(ts, sep) && (ts == [] ==> Join(ts, sep) == [])
  {
  }

  /** `sdsjoinsds`. */
  method JoinSds(argv: seq<Sds>, ghost ts: seq<bytes>, sep: bytes) returns (join: Sds)
    requires Hold(argv, ts) && CanAlloc(|Join(ts, sep)|)
    ensures join.Valid() && fresh(join) && fresh(join.mem) && join.Text() == Join(ts, sep)
  {
    hide Join, IsHeader, TypeOf, LenOf, AllocOf, AvailOf;
    join := new Sds.NewLen(From([]), 0);
    var j := 0;
    JoinStarts(ts, sep);
    while j < |argv|
      invariant 0 <= j <= |argv| && fresh(join) && fresh(join.mem) && join.Valid()
      invariant if j < |argv| then join.Text() + Join(ts[j..], sep) == Join(ts, sep) else join.Text() == Join(ts, sep)
    {
      JoinStep(join.Text(), ts, sep, j);
      assert argv[j].Valid() && argv[j].Text() == ts[j] by {
        assert old(argv[j].Valid() && argv[j].Text() == ts[j]);
      }
      join.CatUpTo(argv[j].Text(), |Join(ts, sep)|);
      if j != |argv| - 1 {
        join.CatUpTo(sep, |Join(ts, sep)|);
      }
      j := j + 1;
    }
  }
}
