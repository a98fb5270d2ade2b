/**
 * Octets, 32-bit unsigned integers and C strings as the two programs see
 * them. A `char` buffer is a sequence of `Byte`s read as `unsigned char`;
 * a C string is the run of bytes before the first NUL of such a buffer.
 */
module Bytes {
  import opened Wrappers

  /** One `char` of a buffer, read as `unsigned char`. */
  type Byte = b: int | 0 <= b < 0x100

  /** A C `unsigned int` / `uint32_t`. */
  type U32 = x: int | 0 <= x < 0x1_0000_0000

  const NUL: Byte := 0
  const TAB: Byte := 9
  const SPACE: Byte := 32

  /** The contents of a C string: no byte among them is NUL. */
  predicate IsCString(s: seq<Byte>) {
    forall i :: 0 <= i < |s| ==> s[i] != NUL
  }

  /** A run of `n` NUL bytes, as left by `memset(…, 0, …)` or the padding of `strncpy`. */
  function Zeros(n: nat): (z: seq<Byte>)
    ensures |z| == n
    ensures forall i :: 0 <= i < n ==> z[i] == NUL
  {
    seq(n, _ => NUL)
  }

  /**
   * The C string stored at the start of `buf`: the bytes before its first
   * NUL. When `buf` holds no NUL at all, a C string function applied to it
   * would run past its end; that case is `None`, not a guess.
   */
  function CText(buf: seq<Byte>): (r: Option<seq<Byte>>)
    ensures r.None? <==> IsCString(buf)
    ensures r.Some? ==> |r.value| < |buf| && r.value == buf[..|r.value|]
    ensures r.Some? ==> IsCString(r.value) && buf[|r.value|] == NUL
  {
    if |buf| == 0 then None
    else if buf[0] == NUL then Some([])
    else match CText(buf[1..])
      case None => None
      case Some(t) => Some([buf[0]] + t)
  }

  /** A C string followed by at least one NUL reads back as itself. */
  lemma {:induction false} CTextOfPadded(c: seq<Byte>, n: nat)
    requires IsCString(c) && n > 0
    ensures CText(c + Zeros(n)) == Some(c)
  {
    if |c| > 0 {
      assert (c + Zeros(n))[1..] == c[1..] + Zeros(n);
      CTextOfPadded(c[1..], n);
      assert [c[0]] + c[1..] == c;
    }
  }

  /** ASCII text without NUL, as written in a C string literal. */
  predicate IsAscii(s: string) {
    forall i :: 0 <= i < |s| ==> 0 < s[i] as int < 0x80
  }

  /** The bytes a C compiler stores for a string literal, terminator excluded. */
  function Ascii(s: string): (b: seq<Byte>)
    requires IsAscii(s)
    ensures |b| == |s| && IsCString(b)
    ensures forall i :: 0 <= i < |s| ==> b[i] == s[i] as int
  {
    seq(|s|, i requires 0 <= i < |s| => s[i] as int)
  }
}
