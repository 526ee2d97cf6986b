/**
 * Bytes on the wire and the ASCII view of them.
 *
 * The server turns every line it reads into a string before looking at it.
 * Here a byte becomes the character with the same code, which is what UTF-8
 * decoding does for ASCII traffic; lower-casing folds only 'A'..'Z'.
 */
module Ascii {
  /** One octet of the connection. */
  type byte = b: int | 0 <= b < 256

  /** The line terminator that `read_until` stops at. */
  const LF: byte := 10

  /** The text of a run of bytes, one character per byte. */
  function Decode(bs: seq<byte>): (s: string)
    ensures |s| == |bs|
    ensures forall i :: 0 <= i < |bs| ==> s[i] as int == bs[i]
  {
    seq(|bs|, i requires 0 <= i < |bs| => bs[i] as char)
  }

  lemma DecodeSlice(bs: seq<byte>, i: nat, j: nat)
    requires i <= j <= |bs|
    ensures Decode(bs[i..j]) == Decode(bs)[i..j]
  {
  }

  predicate IsUpper(c: char) {
    'A' <= c <= 'Z'
  }

  /** ASCII lower-casing of one character. */
  function LowerChar(c: char): (d: char)
    ensures !IsUpper(d)
    ensures IsUpper(c) ==> d as int == c as int + 32
    ensures !IsUpper(c) ==> d == c
  {
    if IsUpper(c) then (c as int + 32) as char else c
  }

  /** The lookup key of a header name (`to_lowercase`, ASCII only). */
  function LowerStr(s: string): (t: string)
    ensures |t| == |s|
    ensures forall i :: 0 <= i < |s| ==> t[i] == LowerChar(s[i])
  {
    seq(|s|, i requires 0 <= i < |s| => LowerChar(s[i]))
  }

  /** Folding twice is folding once: a lookup key is its own lookup key. */
  lemma LowerStrIdempotent(s: string)
    ensures LowerStr(LowerStr(s)) == LowerStr(s)
  {
  }
}
