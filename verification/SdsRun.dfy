/** Whole runs of sds calls against the same runs on a plain byte string. */
module SdsRun {
  import opened Bytes
  import opened SdsHeader
  import opened SdsLayout
  import opened SdsString

  datatype Op =
    | Cat(t: bytes)
    | Cpy(t: bytes)
    | Grow(n: nat)
    | Clear
    | Trim(cset: bytes)
    | Range(start: int, end: int)
    | MakeRoom(n: nat)
    | RemoveFree
    | UpdateLen

  /** What a call means on the plain text. */
  function Plain(op: Op, t: bytes): bytes
    requires op.Trim? ==> NUL in op.cset
  {
    match op
    case Cat(u) => t + u
    case Cpy(u) => u
    case Grow(n) => GrowText(t, n)
    case Clear => []
    case Trim(cset) => TrimText(t, cset)
    case Range(start, end) => RangeText(t, start, end)
    case MakeRoom(_) => t
    case RemoveFree => t
    case UpdateLen => CStr(t + [NUL])
  }

  /** What a call does to the header of a string whose text becomes `n` bytes long. */
  function Relay(op: Op, l: Layout, n: nat): Layout
    requires l.Ok()
  {
    match op
    case Cat(u) => Append(l, |u|)
    case Cpy(u) => Copy(l, |u|)
    case Grow(m) => if m <= l.len then l else Append(l, m - l.len)
    case MakeRoom(m) => SdsLayout.MakeRoom(l, m)
    case RemoveFree => SdsLayout.RemoveFree(l)
    case _ => l.WithLen(n)
  }

  /** What the call demands: a terminated `cset`, indices that are `ssize_t`, and a size malloc can be asked for. */
  predicate Allowed(op: Op, l: Layout) {
    match op
    case Cat(u) => l.Avail() < |u| ==> CanAlloc(l.len + |u|)
    case Cpy(u) => l.alloc < |u| ==> CanAlloc(|u|)
    case Grow(n) => l.alloc < n ==> CanAlloc(n)
    case Trim(cset) => NUL in cset
    case Range(start, end) => RangeAllowed(l.len, start, end)
    case MakeRoom(n) => l.Avail() < n ==> CanAlloc(l.len + n)
    case _ => true
  }

  lemma TextFits(op: Op, t: bytes, l: Layout)
    requires l.Ok() && l.len == |t| && Allowed(op, l)
    ensures Relay(op, l, |Plain(op, t)|).Ok() && Relay(op, l, |Plain(op, t)|).len == |Plain(op, t)|
    ensures op.MakeRoom? ==> Relay(op, l, |t|).Avail() >= op.n
    ensures op.RemoveFree? ==> Relay(op, l, |t|).Avail() == 0
  {
    match op
    case Cat(u) => AppendKeeps(l, |u|);
    case Cpy(u) => CopyKeeps(l, |u|);
    case Grow(n) => if n > l.len { AppendKeeps(l, n - l.len); }
    case Trim(cset) => var i, j := TrimByDecomposes(t, Members(cset) + {NUL});
    case MakeRoom(n) => MakeRoomKeeps(l, n);
    case RemoveFree => RemoveFreeKeeps(l);
    case Range(_, _) =>
    case Clear =>
    case UpdateLen =>
  }

  ghost predicate Terminated(ops: seq<Op>) {
    forall op <- ops :: op.Trim? ==> NUL in op.cset
  }

  predicate RunAllowed(ops: seq<Op>, t: bytes, l: Layout): (ok: bool)
    requires l.Ok() && l.len == |t|
    ensures ok ==> Terminated(ops)
    decreases |ops|
  {
    ops == [] ||
    (Allowed(ops[0], l) &&
     (TextFits(ops[0], t, l);
      var u := Plain(ops[0], t);
      RunAllowed(ops[1..], u, Relay(ops[0], l, |u|))))
  }

  function PlainRun(ops: seq<Op>, t: bytes): bytes
    requires Terminated(ops)
  {
    if ops == [] then t else PlainRun(ops[1..], Plain(ops[0], t))
  }

  /** Calls made in two stretches are calls made in one. */
  lemma {:induction false} RunsCompose(a: seq<Op>, b: seq<Op>, t: bytes)
    requires Terminated(a) && Terminated(b)
    ensures Terminated(a + b) && PlainRun(a + b, t) == PlainRun(b, PlainRun(a, t))
    decreases |a|
  {
    hide Plain;
    if a == [] {
      assert a + b == b;
    } else {
      assert a[0] in a && forall op <- a[1..] :: op in a;
      RunsCompose(a[1..], b, Plain(a[0], t));
      assert (a + b)[1..] == a[1..] + b && (a + b)[0] == a[0];
    }
  }

  /** How calls on the plain text combine and cancel. */
  lemma Laws(t: bytes, u: bytes, v: bytes, cset: bytes, n: nat)
    requires NUL in cset
    ensures Plain(Cat(v), Plain(Cat(u), t)) == Plain(Cat(u + v), t)
    ensures Plain(Cat(u), Plain(Cpy(v), t)) == v + u == Plain(Cat(v + u), Plain(Clear, t))
    ensures Plain(MakeRoom(n), t) == Plain(RemoveFree, t) == Plain(Range(0, -1), t) == t
    ensures Plain(Trim(cset), Plain(Trim(cset), t)) == Plain(Trim(cset), t)
    ensures |t| > 0 ==> Plain(Range(0, |t| - 1), Plain(Grow(|t| + n), t)) == t
    ensures 0 !in t ==> Plain(UpdateLen, Plain(Cat([0] + u), t)) == t == Plain(UpdateLen, Plain(Grow(|t| + n), t))
  {
    hide Plain;
    PlainCat(t, u, v);
    PlainKeeps(t, n);
    TrimTwice(t, cset);
    GrowThenCut(t, n);
    CatThenCut(t, u);
  }

  lemma PlainCat(t: bytes, u: bytes, v: bytes)
    ensures Plain(Cat(v), Plain(Cat(u), t)) == Plain(Cat(u + v), t)
    ensures Plain(Cat(u), Plain(Cpy(v), t)) == v + u == Plain(Cat(v + u), Plain(Clear, t))
  {
    assert t + u + v == t + (u + v);
  }

  lemma PlainKeeps(t: bytes, n: nat)
    ensures Plain(MakeRoom(n), t) == Plain(RemoveFree, t) == Plain(Range(0, -1), t) == t
  {
  }

  lemma GrowThenCut(t: bytes, n: nat)
    ensures |t| > 0 ==> Plain(Range(0, |t| - 1), Plain(Grow(|t| + n), t)) == t
    ensures 0 !in t ==> Plain(UpdateLen, Plain(Grow(|t| + n), t)) == t
  {
    hide StrLen, CStr;
    var zeros := seq(n, _ => NUL);
    assert GrowText(t, |t| + n) == t + zeros;
    if |t| > 0 {
      assert RangeText(t + zeros, 0, |t| - 1) == (t + zeros)[..|t|] == t;
    }
    if 0 !in t {
      assert t + zeros + [NUL] == t + [0] + zeros;
      CutAtNul(t, zeros);
    }
  }

  lemma CatThenCut(t: bytes, u: bytes)
    ensures 0 !in t ==> Plain(UpdateLen, Plain(Cat([0] + u), t)) == t
  {
    hide StrLen, CStr;
    if 0 !in t {
      assert t + ([0] + u) + [NUL] == t + [0] + (u + [NUL]);
      CutAtNul(t, u + [NUL]);
    }
  }

  lemma TrimTwice(t: bytes, cset: bytes)
    requires NUL in cset
    ensures Plain(Trim(cset), Plain(Trim(cset), t)) == Plain(Trim(cset), t)
  {
    TrimInStages(t, Members(cset) + {NUL}, Members(cset) + {NUL});
  }

  lemma CutAtNul(t: bytes, u: bytes)
    requires 0 !in t
    ensures NUL in t + [0] + u && CStr(t + [0] + u) == t
  {
    var all := t + [0] + u;
    assert all[|t|] == 0;
    assert forall k :: 0 <= k < |t| ==> all[k] == t[k] && t[k] in t;
    assert StrLen(all) == |t|;
  }

  /** One call, dispatched. */
  method Do(b: Sds, op: Op)
    requires b.Valid() && Allowed(op, b.Lay())
    modifies b, b.mem
    ensures b.Valid() && (b.mem == old(b.mem) || fresh(b.mem))
    ensures b.Text() == Plain(op, old(b.Text()))
    ensures b.Lay() == Relay(op, old(b.Lay()), |b.Text()|)
  {
    hide IsHeader, TypeOf, LenOf, AllocOf, AvailOf, TrimText, TrimBy, RangeText, SdsLayout.MakeRoom, Append, Copy;
    match op
    case Cat(t) => b.CatLen(t);
    case Cpy(t) => b.CpyLen(t);
    case Grow(n) => b.GrowZero(n);
    case Clear => b.Clear();
    case Trim(cset) => b.Trim(cset);
    case Range(start, end) => b.Range(start, end);
    case MakeRoom(n) => b.MakeRoomFor(n);
    case RemoveFree => b.RemoveFreeSpace();
    case UpdateLen => b.UpdateLen();
  }

  /**
   Any run of calls, across every move between header types, leaves what the run
   leaves on the plain text, in a string that is still well formed.
   */
  method Run(b: Sds, ops: seq<Op>)
    requires b.Valid() && RunAllowed(ops, b.Text(), b.Lay())
    modifies b, b.mem
    ensures b.Valid() && (b.mem == old(b.mem) || fresh(b.mem))
    ensures b.Text() == PlainRun(ops, old(b.Text()))
    decreases |ops|
  {
    if ops != [] {
      TextFits(ops[0], b.Text(), b.Lay());
      Do(b, ops[0]);
      Run(b, ops[1..]);
    }
  }

  function Lengths(ts: seq<bytes>): seq<nat> {
    if ts == [] then [] else [|ts[0]|] + Lengths(ts[1..])
  }

  function Concat(ts: seq<bytes>): bytes {
    if ts == [] then [] else ts[0] + Concat(ts[1..])
  }

  lemma AppendStep(l: Layout, t: bytes, ts: seq<bytes>)
    requires ts != [] && l.Ok() && l.len + Sum(Lengths(ts)) < SDS_MAX_PREALLOC
    ensures CanAlloc(l.len + |ts[0]|) && t + ts[0] + Concat(ts[1..]) == t + Concat(ts)
    ensures var m := Append(l, |ts[0]|);
            && m.Ok() && m.len + Sum(Lengths(ts[1..])) == l.len + Sum(Lengths(ts))
            && Copied(l, Lengths(ts)) == CopyCost(l, |ts[0]|) + Copied(m, Lengths(ts[1..]))
  {
  }

  /** A run of appends copies exactly what the growth policy says ... */
  method AppendEach(b: Sds, ts: seq<bytes>)
    requires b.Valid() && b.Len() + Sum(Lengths(ts)) < SDS_MAX_PREALLOC
    modifies b, b.mem
    ensures b.Valid() && (b.mem == old(b.mem) || fresh(b.mem))
    ensures b.Text() == old(b.Text()) + Concat(ts)
    ensures b.copied == old(b.copied) + Copied(old(b.Lay()), Lengths(ts))
    decreases |ts|
  {
    if ts != [] {
      AppendStep(b.Lay(), b.Text(), ts);
      b.CatLen(ts[0]);
      AppendEach(b, ts[1..]);
    }
  }

  /** ... and hence at most the initial length plus twice what it appends. */
  method AppendRun(b: Sds, ts: seq<bytes>)
    requires b.Valid() && b.Len() + Sum(Lengths(ts)) < SDS_MAX_PREALLOC
    modifies b, b.mem
    ensures b.Valid() && b.Text() == old(b.Text()) + Concat(ts)
    ensures b.copied - old(b.copied) <= old(b.Len()) + 2 * Sum(Lengths(ts))
  {
    AppendsAreAmortised(b.Lay(), Lengths(ts));
    AppendEach(b, ts);
  }
}
