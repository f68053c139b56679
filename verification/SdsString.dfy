/**
 The sds string as a handle on a malloc'd block: packed header, text, NUL, spare
 room. Every operation is proved against the plain byte string it stands for
 (`Text`) and against the bookkeeping of `SdsLayout` (`Lay`).
 */
module SdsString {
  import opened Bytes
  import opened SdsHeader
  import opened SdsLayout

  /** The `init` argument of `sdsnewlen`: NULL, SDS_NOINIT, or a source buffer. */
  datatype Init = Zeroed | NoInit | From(src: bytes)

  const SSIZE_MAX: int := 0x7FFF_FFFF_FFFF_FFFF
  const SSIZE_MIN: int := -0x8000_0000_0000_0000

  // ---- what the editing operations mean on plain text ----

  /** Text without the bytes of `drop` at either end. */
  function TrimBy(t: bytes, drop: set<byte>): bytes
    decreases |t|
  {
    if t != [] && t[0] in drop then TrimBy(t[1..], drop)
    else if t != [] && t[|t| - 1] in drop then TrimBy(t[..|t| - 1], drop)
    else t
  }

  /** The characters that `cset` spells out. */
  function Members(cset: bytes): set<byte>
    requires NUL in cset
  {
    set c | c in CStr(cset)
  }

  /** What `sdstrim` leaves: `strchr` also finds the terminator, so NUL bytes go too. */
  function TrimText(t: bytes, cset: bytes): bytes
    requires NUL in cset
  {
    TrimBy(t, Members(cset) + {NUL})
  }

  /** Where an inclusive, possibly negative index of `sdsrange` points. */
  function Norm(i: int, len: nat): nat {
    if i >= 0 then i else if len + i < 0 then 0 else len + i
  }

  function RangeText(t: bytes, start: int, end: int): bytes {
    var lo, hi := Norm(start, |t|), Norm(end, |t|) + 1;
    if lo >= hi || lo >= |t| then [] else if hi >= |t| then t[lo..] else t[lo..hi]
  }

  function GrowText(t: bytes, n: nat): bytes {
    if n <= |t| then t else t + seq(n - |t|, _ => NUL)
  }

  /** The trimmed text is the only core between droppable ends that has no droppable end itself. */
  lemma {:induction false} TrimByIs(t: bytes, drop: set<byte>, i: nat, j: nat)
    requires i <= j <= |t|
    requires forall k :: 0 <= k < i || j <= k < |t| ==> t[k] in drop
    requires i < j ==> t[i] !in drop && t[j - 1] !in drop
    ensures TrimBy(t, drop) == t[i..j]
    decreases |t|
  {
    if i > 0 {
      TrimByIs(t[1..], drop, i - 1, j - 1);
      assert t[1..][i - 1..j - 1] == t[i..j];
    } else if j == 0 && t != [] {
      TrimByIs(t[1..], drop, 0, 0);
    } else if j < |t| {
      TrimByIs(t[..|t| - 1], drop, i, j);
      assert t[..|t| - 1][i..j] == t[i..j];
    }
  }

  /** Conversely trimming always finds such a core. */
  lemma {:induction false} TrimByDecomposes(t: bytes, drop: set<byte>) returns (i: nat, j: nat)
    ensures i <= j <= |t| && TrimBy(t, drop) == t[i..j]
    ensures forall k :: 0 <= k < i || j <= k < |t| ==> t[k] in drop
    ensures i < j ==> t[i] !in drop && t[j - 1] !in drop
    decreases |t|
  {
    i, j := 0, |t|;
    if t != [] && t[0] in drop {
      i, j := TrimByDecomposes(t[1..], drop);
      i, j := i + 1, j + 1;
      assert t[1..][i - 1..j - 1] == t[i..j];
    } else if t != [] && t[|t| - 1] in drop {
      i, j := TrimByDecomposes(t[..|t| - 1], drop);
      assert t[..|t| - 1][i..j] == t[i..j];
    }
  }

  /** Dropping more bytes is dropping the first ones and then more. */
  lemma {:induction false} TrimInStages(t: bytes, drop: set<byte>, more: set<byte>)
    requires drop <= more
    ensures TrimBy(t, more) == TrimBy(TrimBy(t, drop), more)
    decreases |t|
  {
    if t != [] && t[0] in drop {
      TrimInStages(t[1..], drop, more);
    } else if t != [] && t[|t| - 1] in drop {
      TrimInStages(t[..|t| - 1], drop, more);
      TrimLast(t, more);
    }
  }

  lemma {:induction false} TrimLast(t: bytes, drop: set<byte>)
    requires t != [] && t[|t| - 1] in drop
    ensures TrimBy(t, drop) == TrimBy(t[..|t| - 1], drop)
    decreases |t|
  {
    if t[0] in drop && |t| > 1 {
      TrimLast(t[1..], drop);
      assert t[1..][..|t| - 2] == t[..|t| - 1][1..];
    } else if |t| == 1 {
      assert t[1..] == t[..|t| - 1];
    }
  }

  /**
   Trimming by `cset` as it is documented, by its characters alone, gives what the
   code gives exactly when it leaves nothing or no NUL at either end.
   */
  lemma {:induction false} TrimAsDocumentedIff(t: bytes, cset: bytes)
    requires NUL in cset
    ensures var core := TrimBy(t, Members(cset));
            TrimText(t, cset) == core <==> core == [] || (core[0] != NUL && core[|core| - 1] != NUL)
  {
    var core, all := TrimBy(t, Members(cset)), Members(cset) + {NUL};
    TrimInStages(t, Members(cset), all);
    var i, j := TrimByDecomposes(core, all);
    var p, q := TrimByDecomposes(t, Members(cset));
  }

  /** "\0a" trimmed by the empty set of characters loses its NUL. */
  lemma TrimDropsNul()
    ensures TrimText([NUL, 'a' as int], [NUL]) == ['a' as int]
    ensures TrimBy([NUL, 'a' as int], Members([NUL])) == [NUL, 'a' as int]
  {
    TrimByIs([NUL, 'a' as int], Members([NUL]) + {NUL}, 1, 2);
  }

  /** In plain terms: `chars` are trimmed and NUL with them, and nothing behind the terminator counts. */
  lemma TrimTextIs(t: bytes, chars: bytes, junk: bytes, i: nat, j: nat)
    requires i <= j <= |t| && 0 !in chars
    requires forall k :: 0 <= k < i || j <= k < |t| ==> t[k] in chars || t[k] == 0
    requires i < j ==> t[i] !in chars && t[i] != 0 && t[j - 1] !in chars && t[j - 1] != 0
    ensures NUL in chars + [0] + junk && TrimText(t, chars + [0] + junk) == t[i..j]
  {
    var cset := chars + [0] + junk;
    assert cset[|chars|] == 0;
    assert StrLen(cset) == |chars| && CStr(cset) == chars;
    TrimByIs(t, Members(cset) + {NUL}, i, j);
  }

  /** Growing keeps the text and pads it with zeros. */
  lemma GrowTextIs(t: bytes, n: nat)
    ensures var r := GrowText(t, n);
            && |r| == (if |t| < n then n else |t|) && t <= r
            && forall k :: |t| <= k < |r| ==> r[k] == 0
  {
  }

  predicate IsKept(k: int, len: nat, start: int, end: int) {
    && (if start < 0 then len + start else start) <= k
    && (k <= (if end < 0 then len + end else end) || (k == 0 && end < 0))
  }

  /**
   A range keeps the bytes from `start` to `end`, both counted from the end when
   negative; an end that lies before the text still keeps its first byte.
   */
  lemma RangeTextIs(t: bytes, start: int, end: int) returns (i: nat, j: nat)
    ensures i <= j <= |t| && RangeText(t, start, end) == t[i..j]
    ensures forall k :: 0 <= k < |t| ==> (i <= k < j <==> IsKept(k, |t|, start, end))
  {
    i := if Norm(start, |t|) < |t| then Norm(start, |t|) else |t|;
    j := if Norm(end, |t|) < |t| then Norm(end, |t|) + 1 else |t|;
    if j < i {
      j := i;
    }
  }

  /** Inclusive ranges that meet at an index, counted from either end, put the text together again. */
  lemma RangesMeet(t: bytes, i: int)
    requires -|t| <= i < |t|
    ensures var k := Norm(i, |t|);
            RangeText(t, 0, i) == t[..k + 1] && RangeText(t, k + 1, -1) == t[k + 1..]
    ensures RangeText(t, 0, i) + RangeText(t, Norm(i, |t|) + 1, -1) == t
    ensures RangeText(t, i, i) == [t[Norm(i, |t|)]]
  {
  }

  // ---- memory as a value ----

  /** `m` after writing `t` at offset `off`. */
  function Splice(m: bytes, off: nat, t: bytes): (r: bytes)
    requires off + |t| <= |m|
    ensures |r| == |m|
    ensures r[..off] == m[..off] && r[..off + |t|] == m[..off] + t && r[off + |t|..] == m[off + |t|..]
  {
    m[..off] + t + m[off + |t|..]
  }

  lemma SpliceByte(m: bytes, off: nat, t: bytes, k: nat)
    requires off + |t| <= |m| && k < |m|
    ensures Splice(m, off, t)[k] == if off <= k < off + |t| then t[k - off] else m[k]
  {
  }

  /** Text `t` written at `off` and terminated is the text before `off` followed by `t`. */
  lemma SpliceTerminated(m: bytes, off: nat, t: bytes)
    requires off + |t| < |m|
    ensures var r := Splice(Splice(m, off, t), off + |t|, [NUL]);
            r[..off + |t|] == m[..off] + t && r[off + |t|] == NUL
  {
  }

  lemma PrefixSplits(a: bytes, b: bytes, n: nat)
    requires n < |a| && n < |b| && a[..n + 1] == b[..n + 1]
    ensures a[..n] == b[..n] && a[n] == b[n]
  {
  }

  class Sds {
    var mem: array<byte>     // the whole block
    var s: nat               // the sds pointer: offset of the text in the block
    ghost var copied: nat    // text bytes moved by sdsMakeRoomFor so far

    predicate HasHeader()
      reads this, mem
    {
      s <= mem.Length && IsHeader(mem[..s])
    }

    function Lay(): Layout
      requires HasHeader()
      reads this, mem
    {
      var h := mem[..s];
      Layout(TypeOf(h), LenOf(h), AllocOf(h))
    }

    /** `s[-1] & SDS_TYPE_MASK`. */
    function Type(): (t: HdrType)
      requires HasHeader()
      reads this, mem
      ensures t == Lay().typ
    {
      mem[s - 1] % 8
    }

    /** Everything from the sds pointer to the end of the block. */
    function Tail(): bytes
      requires s <= mem.Length
      reads this, mem
    {
      mem[s..]
    }

    /** Header and room are in order; the NUL may be missing in the middle of an edit. */
    predicate Sound()
      reads this, mem
    {
      HasHeader() && Lay().Ok() && s + Lay().alloc + 1 <= mem.Length
    }

    predicate Valid()
      reads this, mem
    {
      Sound() && Tail()[Lay().len] == NUL
    }

    function Text(): (t: bytes)
      requires Sound()
      reads this, mem
      ensures |t| == Lay().len
    {
      Tail()[..Lay().len]
    }

    function Len(): (n: nat)
      requires Sound()
      reads this, mem
      ensures n == |Text()|
    {
      LenOf(mem[..s])
    }

    function Avail(): (n: nat)
      requires Sound()
      reads this, mem
      ensures n == Lay().Avail()
    {
      AvailOf(mem[..s])
    }

    /** `sdsnewlen`. */
    constructor NewLen(init: Init, initlen: nat)
      requires initlen <= SIZE_MAX - HdrSize(TYPE_64) - 1
      requires init.From? ==> |init.src| >= initlen
      ensures Valid() && fresh(mem) && copied == 0
      ensures Lay() == Layout(NewType(initlen), initlen, initlen)
      ensures match init
              case Zeroed => Text() == seq(initlen, _ => NUL)
              case NoInit => true
              case From(src) => Text() == src[..initlen]
    {
      var t := NewType(initlen);
      var sh := new byte[HdrSize(t) + initlen + 1];
      mem, s, copied := sh, HdrSize(t), 0;
      new;
      FreshDecodes(initlen);
      if init.Zeroed? {
        forall k | 0 <= k < sh.Length { sh[k] := NUL; }
        assert Tail()[..initlen] == seq(initlen, _ => NUL);
      }
      var text := if init.From? then init.src[..initlen] else mem[s..s + initlen];
      PutHeader(Fresh(t, initlen));
      Finish(0, text);
    }

    // ---- writes ----

    /** `h` stored at offset `at` of the header, leaving the text alone. */
    method StoreHeader(at: nat, h: bytes)
      requires at + |h| <= s <= mem.Length
      modifies mem
      ensures mem[..s] == Splice(old(mem[..s]), at, h) && Tail() == old(Tail())
    {
      ghost var head := Splice(mem[..s], at, h);
      forall k | 0 <= k < |h| { mem[at + k] := h[k]; }
      forall k | 0 <= k < s ensures mem[k] == head[k] {
        SpliceByte(old(mem[..s]), at, h, k);
      }
    }

    /** Overwrites the header bytes. */
    method PutHeader(h: bytes)
      requires |h| == s <= mem.Length
      modifies mem
      ensures mem[..s] == h && Tail() == old(Tail())
    {
      StoreHeader(0, h);
    }

    method SetLen(n: nat)
      requires HasHeader() && n <= MaxLen(Lay().typ)
      modifies mem
      ensures HasHeader() && Lay() == old(Lay()).WithLen(n)
      ensures Tail() == old(Tail())
    {
      hide ToLE, FromLE;
      ghost var h := mem[..s];
      var t := Type();
      StoreHeader(0, if t == TYPE_5 then [(n * 8) % 256] else ToLE(n, Width(t)));
      assert mem[..s] == SdsHeader.SetLen(h, n);
      SetLenDecodes(h, n);
    }

    method SetAlloc(n: nat)
      requires HasHeader() && n <= MaxLen(Lay().typ)
      modifies mem
      ensures HasHeader()
      ensures Lay() == if Lay().typ == TYPE_5 then old(Lay()).WithLen(old(Lay()).len) else old(Lay()).(alloc := n)
      ensures Tail() == old(Tail())
    {
      hide ToLE, FromLE;
      ghost var h := mem[..s];
      var t := Type();
      if t != TYPE_5 {
        StoreHeader(Width(t), ToLE(n, Width(t)));
      }
      assert mem[..s] == SdsHeader.SetAlloc(h, n);
      SetAllocDecodes(h, n);
    }

    method IncLen(inc: nat)
      requires HasHeader() && Lay().len + inc <= MaxLen(Lay().typ)
      modifies mem
      ensures HasHeader() && Lay() == old(Lay()).WithLen(old(Lay()).len + inc)
      ensures Tail() == old(Tail())
    {
      hide ToLE, FromLE;
      ghost var h := mem[..s];
      var t := Type();
      var len := LenOf(mem[..s]);
      StoreHeader(0, if t == TYPE_5 then [((len + inc) % 256 * 8) % 256] else ToLE(len + inc, Width(t)));
      assert mem[..s] == SdsHeader.IncLen(h, inc);
      IncLenDecodes(h, inc);
    }

    /** `memcpy(s + off, t, |t|)` and the other block writes past the header. */
    method Write(off: nat, t: bytes)
      requires HasHeader() && s + off + |t| <= mem.Length
      modifies mem
      ensures HasHeader() && Lay() == old(Lay())
      ensures Tail() == Splice(old(Tail()), off, t)
    {
      ghost var h, tail := mem[..s], Splice(Tail(), off, t);
      var at := s + off;
      forall k | 0 <= k < |t| { mem[at + k] := t[k]; }
      assert mem[..s] == h;
      forall k | 0 <= k < |tail| ensures Tail()[k] == tail[k] {
        SpliceByte(old(Tail()), off, t, k);
      }
      assert Tail() == tail;
    }

    // ---- room ----

    /** `s_realloc` to `n` bytes behind the header. */
    method Realloc(n: nat)
      requires s <= mem.Length
      modifies this`mem
      ensures fresh(mem) && mem.Length == s + n && mem[..s] == old(mem[..s])
      ensures forall k: nat | k <= n && k <= |old(Tail())| :: Tail()[..k] == old(Tail())[..k]
    {
      var newsh := new byte[s + n];
      var kept := if mem.Length < newsh.Length then mem.Length else newsh.Length;
      forall k | 0 <= k < kept { newsh[k] := mem[k]; }
      mem := newsh;
    }

    /** `s_malloc` of `n` bytes behind a header of another type, and the copy of the first `kept`. */
    method Remalloc(typ: HdrType, n: nat, kept: nat)
      requires s <= mem.Length && kept <= n && kept <= |Tail()|
      modifies this`mem, this`s
      ensures fresh(mem) && s == HdrSize(typ) && mem.Length == s + n
      ensures HasHeader() && Lay().typ == typ && Tail()[..kept] == old(Tail())[..kept]
    {
      var hdrlen := HdrSize(typ);
      var newsh := new byte[hdrlen + n];
      forall k | 0 <= k < kept { newsh[hdrlen + k] := mem[s + k]; }
      assert newsh[hdrlen..][..kept] == Tail()[..kept];
      mem, s := newsh, hdrlen;
      mem[s - 1] := typ;
      assert mem[..s][s - 1] == typ;
    }

    /** The move of both resizing operations: `realloc` under the same header, else a new block and header. */
    method Relocate(typ: HdrType, cap: nat)
      requires Sound() && Len() <= cap <= MaxLen(typ) && (typ == TYPE_5 ==> Len() == cap)
      modifies this`mem, this`s
      ensures Sound() && fresh(mem)
      ensures Text() == old(Text()) && Tail()[Len()] == old(Tail()[Len()])
      ensures Lay() == Layout(typ, old(Lay()).len, cap)
    {
      hide IsHeader, TypeOf, LenOf, AllocOf, AvailOf;
      ghost var tail := Tail();
      var oldtype := Type();
      var len := Len();
      if oldtype == typ {
        Realloc(cap + 1);
      } else {
        Remalloc(typ, cap + 1, len + 1);
        SetLen(len);
      }
      SetAlloc(cap);
      assert Tail()[..len + 1] == tail[..len + 1];
      PrefixSplits(Tail(), tail, len);
    }

    /** `sdsMakeRoomFor`. */
    method MakeRoomFor(addlen: nat)
      requires Sound()
      requires Avail() < addlen ==> CanAlloc(Len() + addlen)
      modifies this
      ensures Sound() && (mem == old(mem) || fresh(mem))
      ensures Text() == old(Text()) && Tail()[Len()] == old(Tail()[Len()])
      ensures Lay() == MakeRoom(old(Lay()), addlen) && Avail() >= addlen
      ensures copied == old(copied) + CopyCost(old(Lay()), addlen)
      ensures copied == old(copied) + if mem == old(mem) then 0 else Len()
    {
      MakeRoomKeeps(Lay(), addlen);
      if Avail() >= addlen { return; }
      var len := Len();
      var newlen := len + addlen;
      if newlen < SDS_MAX_PREALLOC {
        newlen := newlen * 2;
      } else {
        newlen := newlen + SDS_MAX_PREALLOC;
      }
      var typ := ReqType(newlen);
      if typ == TYPE_5 { typ := TYPE_8; }
      Relocate(typ, newlen);
      copied := copied + len;
    }

    /** `sdsRemoveFreeSpace`. */
    method RemoveFreeSpace()
      requires Valid()
      modifies this
      ensures Valid() && (mem == old(mem) || fresh(mem))
      ensures Text() == old(Text()) && Lay() == RemoveFree(old(Lay())) && copied == old(copied)
    {
      RemoveFreeKeeps(Lay());
      var oldtype := Type();
      var len := Len();
      if Avail() == 0 { return; }
      var typ := ReqType(len);
      if oldtype == typ || typ > TYPE_8 {
        Relocate(oldtype, len);
      } else {
        Relocate(typ, len);
      }
    }

    // ---- editing ----

    /** The end of every edit: copy `t` in behind `off` bytes, terminate, set the length. */
    method Finish(off: nat, t: bytes)
      requires Sound() && off + |t| <= Lay().alloc
      modifies mem
      ensures Valid() && Text() == old(Tail())[..off] + t
      ensures Lay() == old(Lay()).WithLen(off + |t|)
    {
      SpliceTerminated(Tail(), off, t);
      Write(off, t);
      Write(off + |t|, [NUL]);
      SetLen(off + |t|);
    }

    /** `sdsclear`. */
    method Clear()
      requires Valid()
      modifies mem
      ensures Valid() && Text() == [] && Lay() == old(Lay()).WithLen(0)
    {
      Finish(0, []);
    }

    /** `sdscatlen`. */
    method CatLen(t: bytes)
      requires Valid()
      requires Avail() < |t| ==> CanAlloc(Len() + |t|)
      modifies this, mem
      ensures Valid() && (mem == old(mem) || fresh(mem))
      ensures Text() == old(Text()) + t
      ensures Lay() == Append(old(Lay()), |t|)
      ensures copied == old(copied) + CopyCost(old(Lay()), |t|)
    {
      hide IsHeader, TypeOf, LenOf, AllocOf, AvailOf;
      var curlen := Len();
      MakeRoomFor(|t|);
      Finish(curlen, t);
    }

    /** `sdscatlen` by a caller that knows a bound on the final length and nothing of the layout. */
    method CatUpTo(t: bytes, ghost total: nat)
      requires Valid() && |Text()| + |t| <= total && CanAlloc(total)
      modifies this, mem
      ensures Valid() && (mem == old(mem) || fresh(mem))
      ensures Text() == old(Text()) + t
    {
      CatLen(t);
    }

    /** `sdscpylen`. */
    method CpyLen(t: bytes)
      requires Valid()
      requires Lay().alloc < |t| ==> CanAlloc(|t|)
      modifies this, mem
      ensures Valid() && (mem == old(mem) || fresh(mem))
      ensures Text() == t && Lay() == Copy(old(Lay()), |t|)
    {
      hide IsHeader, TypeOf, LenOf, AllocOf, AvailOf;
      if Lay().alloc < |t| {
        MakeRoomFor(|t| - Len());
      }
      Finish(0, t);
    }

    /** `sdsgrowzero`. */
    method GrowZero(len: nat)
      requires Valid()
      requires Lay().alloc < len ==> CanAlloc(len)
      modifies this, mem
      ensures Valid() && (mem == old(mem) || fresh(mem))
      ensures Text() == GrowText(old(Text()), len)
      ensures forall k :: old(Len()) <= k < len ==> Text()[k] == 0
      ensures Lay() == if len <= old(Lay()).len then old(Lay()) else Append(old(Lay()), len - old(Lay()).len)
    {
      hide IsHeader, TypeOf, LenOf, AllocOf, AvailOf;
      var curlen := Len();
      if len <= curlen { return; }
      MakeRoomFor(len - curlen);
      Finish(curlen, seq(len - curlen, _ => NUL));
    }

    /** `sdsIncrLen`, called within the room there is; type 5 only ever shrinks. */
    method IncrLen(incr: int)
      requires Valid() && 0 <= Len() + incr && incr <= Avail()
      requires Lay().typ == TYPE_5 ==> incr < 0
      modifies mem
      ensures Valid() && Lay() == old(Lay()).WithLen(old(Len()) + incr)
      ensures Text() == old(Tail())[..old(Len()) + incr]
    {
      AllocIsAvailPlusLen(mem[..s]);
      var len := Len() + incr;
      SetLen(len);
      Write(len, [NUL]);
    }

    /** `sdsupdatelen`. */
    method UpdateLen()
      requires Valid()
      modifies mem
      ensures Valid() && Text() == CStr(old(Text()) + [NUL])
      ensures Lay() == old(Lay()).WithLen(|Text()|)
    {
      ghost var t := Text() + [NUL];
      var tail := mem[s..];
      assert t == tail[..|t|];
      assert tail[Len()] == NUL;
      StrLenOfPrefix(t, tail);
      SetLen(StrLen(tail));
    }

    /** The two inward loops of `sdstrim`. */
    method TrimBounds(cset: bytes) returns (sp: nat, newlen: nat)
      requires Sound() && NUL in cset
      ensures sp + newlen <= |Text()| && Text()[sp..sp + newlen] == TrimText(Text(), cset)
    {
      hide IsHeader, TypeOf, LenOf, AllocOf, AvailOf, TrimBy;
      ghost var t, drop := Text(), Members(cset) + {NUL};
      var end := Len() - 1;
      var ep := end;
      sp := 0;
      while sp <= end && StrChr(cset, mem[s + sp])
        invariant sp <= |t|
        invariant forall k :: 0 <= k < sp ==> t[k] in drop
        modifies {}
      {
        AtText(sp);
        sp := sp + 1;
      }
      while ep > sp && StrChr(cset, mem[s + ep])
        invariant sp <= ep + 1 <= |t| && (ep < sp ==> sp == |t|)
        invariant forall k :: ep < k < |t| ==> t[k] in drop
        modifies {}
      {
        AtText(ep);
        ep := ep - 1;
      }
      if sp < |t| {
        AtText(sp);
        AtText(ep);
      }
      newlen := ep - sp + 1;
      TrimByIs(t, drop, sp, ep + 1);
    }

    /** `sdstrim`. */
    method Trim(cset: bytes)
      requires Valid() && NUL in cset
      modifies mem
      ensures Valid() && Text() == TrimText(old(Text()), cset)
      ensures Lay() == old(Lay()).WithLen(|Text()|)
    {
      hide IsHeader, TypeOf, LenOf, AllocOf, AvailOf, TrimText;
      var sp, newlen := TrimBounds(cset);
      TrimTail(sp, newlen);
    }

    /** A byte of the text, read from the block. */
    lemma AtText(k: nat)
      requires Sound() && k < |Text()|
      ensures mem[s + k] == Text()[k]
    {
    }

    /** The end of `sdstrim` and `sdsrange`: move the kept part to the front. */
    method TrimTail(from: nat, newlen: nat)
      requires Valid() && from + newlen <= Len()
      modifies mem
      ensures Valid() && Text() == old(Text())[from..from + newlen]
      ensures Lay() == old(Lay()).WithLen(newlen)
    {
      var moved := Text()[from..from + newlen];
      Finish(0, moved);
    }

    /** `sdsrange`. */
    method Range(start: int, end: int)
      requires Valid() && RangeAllowed(|Text()|, start, end)
      modifies mem
      ensures Valid() && Text() == RangeText(old(Text()), start, end)
      ensures Lay() == old(Lay()).WithLen(|Text()|)
    {
      hide IsHeader, TypeOf, LenOf, AllocOf, AvailOf, RangeText;
      var len := |Text()|;
      RangeOfEmpty(Text(), start, end);
      if len == 0 { return; }
      var from, newlen := RangeBounds(len, start, end);
      RangeIs(Text(), start, end);
      TrimTail(from, newlen);
    }
  }

  /** Indices are `ssize_t`, and `(end-start)+1` does not overflow one where it is computed. */
  predicate RangeAllowed(len: nat, start: int, end: int) {
    && len <= SSIZE_MAX && SSIZE_MIN <= start <= SSIZE_MAX && SSIZE_MIN <= end <= SSIZE_MAX
    && (len > 0 && end == SSIZE_MAX ==> Norm(start, len) > 0)
  }

  /** How many bytes a range keeps, from `Norm(start, len)` on. */
  function RangeCount(len: nat, start: int, end: int): nat {
    var lo, hi := Norm(start, len), Norm(end, len);
    if lo > hi || lo >= len then 0 else if hi >= len then len - lo else hi - lo + 1
  }

  /** The arithmetic of `sdsrange`. */
  method RangeBounds(len: nat, start: int, end: int) returns (from: nat, newlen: nat)
    requires len > 0 && RangeAllowed(len, start, end)
    ensures newlen == RangeCount(len, start, end)
    ensures from == if newlen != 0 then Norm(start, len) else 0
  {
    var lo, hi := start, end;
    if lo < 0 {
      lo := len + lo;
      if lo < 0 { lo := 0; }
    }
    if hi < 0 {
      hi := len + hi;
      if hi < 0 { hi := 0; }
    }
    assert lo <= hi ==> hi - lo + 1 <= SSIZE_MAX;
    newlen := if lo > hi then 0 else hi - lo + 1;
    if newlen != 0 {
      if lo >= len {
        newlen := 0;
      } else if hi >= len {
        hi := len - 1;
        newlen := hi - lo + 1;
      }
    }
    from := if newlen != 0 then lo else 0;
  }

  lemma RangeIs(t: bytes, start: int, end: int)
    ensures var n := RangeCount(|t|, start, end);
            var from := if n != 0 then Norm(start, |t|) else 0;
            from + n <= |t| && RangeText(t, start, end) == t[from..from + n]
  {
  }

  lemma RangeOfEmpty(t: bytes, start: int, end: int)
    ensures t == [] ==> RangeText(t, start, end) == []
  {
  }
}
