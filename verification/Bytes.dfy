/** Bytes, byte strings and NUL-terminated C strings. */
module Bytes {

  type byte = b: int | 0 <= b < 256
  type bytes = seq<byte>

  const NUL: byte := 0
  const TAB: byte := 9
  const LF: byte := 10
  const CR: byte := 13
  const SPACE: byte := 32
  const PERCENT: byte := '%' as int

  /** What `strlen` returns on a buffer that holds a terminator. */
  function StrLen(s: bytes): (n: nat)
    requires NUL in s
    ensures n < |s| && s[n] == NUL && NUL !in s[..n]
  {
    if s[0] == NUL then 0 else 1 + StrLen(s[1..])
  }

  /** `strlen` is settled by the bytes up to a terminator. */
  lemma StrLenOfPrefix(p: bytes, s: bytes)
    requires p <= s && NUL in p
    ensures NUL in s && StrLen(s) == StrLen(p) && CStr(s) == CStr(p)
  {
  }

  /** The C string held by a buffer: its bytes before the first NUL. */
  function CStr(s: bytes): (t: bytes)
    requires NUL in s
    ensures NUL !in t && |t| < |s| && s[..|t|] == t && s[|t|] == NUL
  {
    s[..StrLen(s)]
  }

  /** `strchr(cset, c) != NULL`: the terminator itself counts as a member. */
  predicate StrChr(cset: bytes, c: byte)
    requires NUL in cset
  {
    c in CStr(cset) || c == NUL
  }

  /** `isspace` in the C locale. */
  predicate IsSpace(c: byte) {
    c == SPACE || 9 <= c <= 13
  }

  /** `isprint` in the C locale; bytes of 128 and more are negative as `char`. */
  predicate IsPrint(c: byte) {
    32 <= c <= 126
  }

  /** The hexadecimal digit `c`, in either case, stands for `v`. */
  predicate HexValue(c: byte, v: nat) {
    v < 16 && (c == "0123456789abcdef"[v] as int || c == "0123456789ABCDEF"[v] as int)
  }

  predicate IsHex(c: byte) {
    exists v: nat :: v < 16 && HexValue(c, v)
  }
}
