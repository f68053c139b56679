/**
 The bookkeeping half of an sds string (header type, `len`, `alloc`) under the
 growth policy, and what that policy costs over whole runs of appends.
 */
module SdsLayout {
  import opened SdsHeader

  const SDS_MAX_PREALLOC: nat := 0x10_0000

  datatype Layout = Layout(typ: HdrType, len: nat, alloc: nat) {

    /** The representation invariant; type 5 cannot remember spare room. */
    predicate Ok() {
      len <= alloc <= MaxLen(typ) && (typ == TYPE_5 ==> len == alloc)
    }

    function Avail(): int {
      alloc - len
    }

    function WithLen(n: nat): Layout {
      Layout(typ, n, if typ == TYPE_5 then n else alloc)
    }
  }

  /** The allocation picked for a required length. */
  function Grown(req: nat): nat {
    if req < SDS_MAX_PREALLOC then 2 * req else req + SDS_MAX_PREALLOC
  }

  /** The size handed to malloc for `req`, header and NUL included, is a `size_t`. */
  predicate CanAlloc(req: nat) {
    HdrSize(TYPE_64) + Grown(req) + 1 <= SIZE_MAX
  }

  function MakeRoom(l: Layout, add: nat): Layout {
    if l.Avail() >= add then l
    else
      var t := ReqType(Grown(l.len + add));
      Layout(if t == TYPE_5 then TYPE_8 else t, l.len, Grown(l.len + add))
  }

  /** Only types 5 and 8 are worth a move to a smaller header; larger ones shrink in place. */
  function RemoveFree(l: Layout): Layout {
    var t := ReqType(l.len);
    if l.Avail() == 0 then l
    else if l.typ == t || t > TYPE_8 then Layout(l.typ, l.len, l.len)
    else Layout(t, l.len, l.len)
  }

  function Append(l: Layout, n: nat): Layout {
    MakeRoom(l, n).WithLen(l.len + n)
  }

  /** `sdscpylen` asks for room only when the whole text does not fit. */
  function Copy(l: Layout, n: nat): Layout
    requires l.Ok()
  {
    (if l.alloc < n then MakeRoom(l, n - l.len) else l).WithLen(n)
  }

  /** Text bytes `sdsMakeRoomFor` moves to the new block. */
  function CopyCost(l: Layout, add: nat): nat {
    if l.Avail() >= add then 0 else l.len
  }

  lemma MakeRoomKeeps(l: Layout, add: nat)
    requires l.Ok() && (l.Avail() < add ==> CanAlloc(l.len + add))
    ensures var r := MakeRoom(l, add);
            r.Ok() && r.len == l.len && r.Avail() >= add && (add > 0 ==> r.typ != TYPE_5)
  {
  }

  /**
   The policy in full: nothing moves while there is room; else the allocation is the
   lesser of double the length asked for and that length plus a mebibyte, under the
   least type from 8 on that can express it.
   */
  lemma MakeRoomIs(l: Layout, add: nat)
    requires l.Ok() && (l.Avail() < add ==> CanAlloc(l.len + add))
    ensures var r, n := MakeRoom(l, add), l.len + add;
            if n <= l.alloc then r == l
            else
              && r.alloc == (if n <= 1024 * 1024 then n + n else n + 1024 * 1024)
              && r.alloc <= n + n && r.alloc <= n + 1024 * 1024
              && forall t: HdrType :: t > 0 ==> (r.typ <= t <==> r.alloc <= MaxLen(t))
  {
    if l.Avail() < add {
      ReqTypeIsLeast(Grown(l.len + add));
    }
  }

  lemma AppendKeeps(l: Layout, n: nat)
    requires l.Ok() && (l.Avail() < n ==> CanAlloc(l.len + n))
    ensures Append(l, n).Ok() && Append(l, n).len == l.len + n
  {
  }

  lemma CopyKeeps(l: Layout, n: nat)
    requires l.Ok() && (l.alloc < n ==> CanAlloc(n))
    ensures Copy(l, n).Ok() && Copy(l, n).len == n
    ensures n <= l.alloc && l.typ != TYPE_5 ==> Copy(l, n) == Layout(l.typ, n, l.alloc)
    ensures l.alloc < n ==> Copy(l, n).alloc == MakeRoom(l, n - l.len).alloc
  {
  }

  lemma RemoveFreeKeeps(l: Layout)
    requires l.Ok()
    ensures var r := RemoveFree(l); r.Ok() && r.len == l.len && r.Avail() == 0 && r.typ <= l.typ
    ensures var r := RemoveFree(l); r.typ == l.typ || r.typ == ReqType(l.len)
  {
  }

  /**
   The header left is the least that fits the text exactly when it was so already,
   or there was room to give back and type 5 or 8 is enough.
   */
  lemma RemoveFreeIsLeastIff(l: Layout)
    requires l.Ok()
    ensures (forall t: HdrType :: RemoveFree(l).typ <= t <==> l.len <= MaxLen(t)) <==>
            l.typ == ReqType(l.len) || (l.Avail() > 0 && l.len <= MaxLen(TYPE_8))
  {
    RemoveFreeKeeps(l);
    ReqTypeIsLeast(l.len);
    assert l.len <= MaxLen(ReqType(l.len));
  }

  /** 300 bytes of text with room to spare keep their 32-bit header, though 16 bits would do. */
  lemma RemoveFreeKeepsType32()
    ensures RemoveFree(Layout(TYPE_32, 300, 70_000)).typ == TYPE_32 && ReqType(300) == TYPE_16
  {
  }

  // ---- the assertion in sdsIncrLen ----

  /** `(unsigned int)x`. */
  function Cast32(x: nat): nat {
    x % 0x1_0000_0000
  }

  /** The condition `sdsIncrLen` asserts, type by type, with its casts. */
  predicate IncrAsserted(l: Layout, incr: int) {
    if l.typ == TYPE_5 then
      (incr > 0 && l.len + incr < 32) || (incr < 0 && l.len >= Cast32(-incr))
    else if l.typ <= TYPE_16 then
      (incr >= 0 && l.Avail() >= incr) || (incr < 0 && l.len >= Cast32(-incr))
    else if l.typ == TYPE_32 then
      (incr >= 0 && l.Avail() >= Cast32(incr)) || (incr < 0 && l.len >= Cast32(-incr))
    else
      (incr >= 0 && l.Avail() >= incr) || (incr < 0 && l.len >= -incr)
  }

  /**
   The assertion says that the new length fits the room there is, except in
   three families: type 5 asked to stay or grow, and increments beyond 32 bits
   that the casts shorten.
   */
  lemma IncrAssertedIffInRoom(l: Layout, incr: int)
    requires l.Ok()
    ensures (IncrAsserted(l, incr) <==> 0 <= l.len + incr <= l.alloc)
       <==> (&& !(l.typ == TYPE_5 && 0 <= incr < 32 - l.len)
             && !(l.typ <= TYPE_32 && incr <= -0x1_0000_0000 && -incr % 0x1_0000_0000 <= l.len)
             && !(l.typ == TYPE_32 && incr >= 0x1_0000_0000 && incr % 0x1_0000_0000 <= l.Avail()))
  {
  }

  /** Type 5 with three bytes: growing by five passes the assertion without any room. */
  lemma IncrAssertedWithoutRoom()
    ensures var l := Layout(TYPE_5, 3, 3); l.Ok() && IncrAsserted(l, 5) && 3 + 5 > l.alloc
  {
  }

  // ---- runs of appends ----

  function Sum(ns: seq<nat>): nat {
    if ns == [] then 0 else ns[0] + Sum(ns[1..])
  }

  function AppendAll(l: Layout, ns: seq<nat>): Layout
    decreases ns
  {
    if ns == [] then l else AppendAll(Append(l, ns[0]), ns[1..])
  }

  /** Bytes copied over the whole run. */
  function Copied(l: Layout, ns: seq<nat>): nat
    decreases ns
  {
    if ns == [] then 0 else CopyCost(l, ns[0]) + Copied(Append(l, ns[0]), ns[1..])
  }

  /** Appends of the run that had to reallocate. */
  function Reallocs(l: Layout, ns: seq<nat>): nat
    decreases ns
  {
    if ns == [] then 0
    else (if l.Avail() < ns[0] then 1 else 0) + Reallocs(Append(l, ns[0]), ns[1..])
  }

  /** Counting is stepwise, and a run counts none exactly when the block stays as large as it was. */
  lemma {:induction false} ReallocsCount(l: Layout, ns: seq<nat>, n: nat)
    requires l.Ok() && RunFits(l, ns + [n])
    ensures Reallocs(l, ns + [n]) - Reallocs(l, ns) ==
            if AppendAll(l, ns + [n]).alloc == AppendAll(l, ns).alloc then 0 else 1
    decreases ns
  {
    if ns == [] {
      assert ns + [n] == [n] && [n][1..] == [];
    } else {
      var m := Append(l, ns[0]);
      assert (ns + [n])[1..] == ns[1..] + [n];
      MakeRoomKeeps(l, ns[0]);
      ReallocsCount(m, ns[1..], n);
    }
  }

  function Potential(l: Layout): nat {
    if 2 * l.len >= l.alloc then 2 * l.len - l.alloc else 0
  }

  /** Accounting form: copies plus the potential left are paid by the potential at the start. */
  lemma {:induction false} AppendsArePaid(l: Layout, ns: seq<nat>)
    requires l.Ok() && l.len + Sum(ns) < SDS_MAX_PREALLOC
    ensures Copied(l, ns) + Potential(AppendAll(l, ns)) <= Potential(l) + 2 * Sum(ns)
    decreases ns
  {
    if ns != [] {
      var m := Append(l, ns[0]);
      MakeRoomKeeps(l, ns[0]);
      assert CopyCost(l, ns[0]) + Potential(m) <= Potential(l) + 2 * ns[0];
      AppendsArePaid(m, ns[1..]);
    }
  }

  /** Below the doubling limit a run copies at most the initial length plus twice what it appends. */
  lemma AppendsAreAmortised(l: Layout, ns: seq<nat>)
    requires l.Ok() && l.len + Sum(ns) < SDS_MAX_PREALLOC
    ensures Copied(l, ns) <= l.len + 2 * Sum(ns)
  {
    AppendsArePaid(l, ns);
  }

  predicate RunFits(l: Layout, ns: seq<nat>) {
    CanAlloc(l.len + Sum(ns))
  }

  /**
   Above the limit, reallocations are at least SDS_MAX_PREALLOC appended bytes
   apart: the spare room in hand plus the bytes appended pay for every
   reallocation but the first.
   */
  lemma {:induction false} ReallocsAreFarApart(l: Layout, ns: seq<nat>)
    requires l.Ok() && l.len >= SDS_MAX_PREALLOC && RunFits(l, ns)
    ensures Reallocs(l, ns) > 0 ==>
              l.Avail() + (Reallocs(l, ns) - 1) * SDS_MAX_PREALLOC < Sum(ns)
    decreases ns
  {
    if ns != [] {
      var m := Append(l, ns[0]);
      MakeRoomKeeps(l, ns[0]);
      ReallocsAreFarApart(m, ns[1..]);
    }
  }

  /** Directly after such a reallocation, appends of up to SDS_MAX_PREALLOC bytes in all never reallocate. */
  lemma NoReallocWithinPrealloc(l: Layout, n: nat, ns: seq<nat>)
    requires l.Ok() && l.Avail() < n && l.len + n >= SDS_MAX_PREALLOC && RunFits(l, [n] + ns)
    requires Sum(ns) <= SDS_MAX_PREALLOC
    ensures Reallocs(Append(l, n), ns) == 0 && AppendAll(l, [n] + ns).alloc == Append(l, n).alloc
  {
    hide ReqType, RunFits;
    var m := Append(l, n);
    SumSplits(n, ns);
    RunFitsFirst(l, n, ns);
    MakeRoomKeeps(l, n);
    assert m.Avail() == SDS_MAX_PREALLOC;
    RoomSuffices(m, ns);
    assert AppendAll(l, [n] + ns) == AppendAll(m, ns);
  }

  lemma SumSplits(n: nat, ns: seq<nat>)
    ensures ([n] + ns)[0] == n && ([n] + ns)[1..] == ns && Sum([n] + ns) == n + Sum(ns)
  {
    assert ([n] + ns)[1..] == ns;
  }

  lemma RunFitsFirst(l: Layout, n: nat, ns: seq<nat>)
    requires RunFits(l, [n] + ns)
    ensures CanAlloc(l.len + n)
  {
    SumSplits(n, ns);
  }

  lemma {:induction false} RoomSuffices(l: Layout, ns: seq<nat>)
    requires l.Ok() && l.typ != TYPE_5 && Sum(ns) <= l.Avail()
    ensures Reallocs(l, ns) == 0 && AppendAll(l, ns) == l.WithLen(l.len + Sum(ns))
    decreases ns
  {
    if ns != [] {
      RoomSuffices(Append(l, ns[0]), ns[1..]);
    }
  }
}
