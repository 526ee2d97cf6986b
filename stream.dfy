/**
 * The buffered connection a request is read from and a response written to:
 * everything the peer sends, a read cursor, and everything written so far.
 */
module Stream {
  import opened Ascii

  /** The end of the chunk `read_until(b'\n')` returns when called at `p`: just past the next line feed, or the end of the input. */
  function LineEnd(input: seq<byte>, p: nat): (e: nat)
    requires p <= |input|
    decreases |input| - p
    ensures p <= e <= |input|
    ensures e == p <==> p == |input|
    ensures e < |input| ==> input[e - 1] == LF
  {
    if p == |input| then p
    else if input[p] == LF then p + 1
    else LineEnd(input, p + 1)
  }

  class Connection {
    /** Every byte the peer sends on this connection. */
    const input: seq<byte>
    /** How many of them have been consumed. */
    var pos: nat
    /** Everything written back, in order. */
    var output: string

    ghost predicate Valid()
      reads this
    {
      pos <= |input|
    }

    constructor (input: seq<byte>)
      ensures Valid()
      ensures this.input == input && pos == 0 && output == []
    {
      this.input := input;
      pos := 0;
      output := [];
    }

    /** `read_until(b'\n', ..)`: the bytes up to and including the next line feed, or the rest of the input; empty at end of input. */
    method ReadUntilNewline() returns (chunk: seq<byte>)
      requires Valid()
      modifies this`pos
      ensures Valid()
      ensures pos == LineEnd(input, old(pos))
      ensures chunk == input[old(pos)..pos]
    {
      var i := pos;
      while i < |input| && input[i] != LF
        invariant pos <= i <= |input|
        invariant LineEnd(input, i) == LineEnd(input, pos)
      {
        i := i + 1;
      }
      if i < |input| {
        i := i + 1;
      }
      chunk := input[pos..i];
      pos := i;
    }

    /**
     * `read(&mut buf)`: fills the front of `buf` with as many of the next
     * bytes as fit and are there, leaves the rest of `buf` as it was, and
     * returns how many it filled.
     */
    method Read(buf: array<byte>) returns (n: nat)
      requires Valid()
      modifies this`pos, buf
      ensures Valid()
      ensures n == (if buf.Length < |input| - old(pos) then buf.Length else |input| - old(pos))
      ensures pos == old(pos) + n
      ensures buf[..] == input[old(pos)..pos] + old(buf[n..])
    {
      var start := pos;
      n := if buf.Length < |input| - start then buf.Length else |input| - start;
      for i := 0 to n
        invariant forall j :: 0 <= j < i ==> buf[j] == input[start + j]
        invariant forall j :: i <= j < buf.Length ==> buf[j] == old(buf[j])
      {
        buf[i] := input[start + i];
      }
      pos := start + n;
    }

    /** `write_all`: appends the text to what has been written. */
    method WriteAll(s: string)
      modifies this`output
      ensures output == old(output) + s
    {
      output := output + s;
    }
  }
}
