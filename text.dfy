/**
 * The three string operations the request parser is built from:
 * `str::split` on a string pattern, its inverse `Join`, and
 * `str::trim_end_matches`.
 */
module Text {
  import opened Wrappers

  /** The line terminator of HTTP/1.1. */
  const CRLF := "\r\n"

  /** `pat` occurs in `s` starting at index `i`. */
  predicate OccursAt(s: string, pat: string, i: nat) {
    i + |pat| <= |s| && s[i..i + |pat|] == pat
  }

  predicate Contains(s: string, pat: string) {
    exists i: nat | i <= |s| :: OccursAt(s, pat, i)
  }

  /** The first occurrence of `pat` in `s` at or after `from`. */
  function IndexOf(s: string, pat: string, from: nat): (r: Option<nat>)
    requires |pat| > 0
    decreases |s| - from
    ensures r.Some? ==> from <= r.value && OccursAt(s, pat, r.value)
    ensures r.Some? ==> forall j: nat :: from <= j < r.value ==> !OccursAt(s, pat, j)
    ensures r.None? ==> forall j: nat :: from <= j ==> !OccursAt(s, pat, j)
  {
    if from + |pat| > |s| then None
    else if s[from..from + |pat|] == pat then Some(from)
    else IndexOf(s, pat, from + 1)
  }

  /**
   * `s.split(sep)`: the pieces between the non-overlapping occurrences of
   * `sep`, found left to right. There is always at least one piece.
   */
  function Split(s: string, sep: string): (parts: seq<string>)
    requires |sep| > 0
    decreases |s|
    ensures |parts| >= 1
  {
    match IndexOf(s, sep, 0)
    case None => [s]
    case Some(i) => [s[..i]] + Split(s[i + |sep|..], sep)
  }

  /** The pieces glued back together with `sep` between neighbours. */
  function Join(parts: seq<string>, sep: string): string {
    if |parts| == 0 then ""
    else if |parts| == 1 then parts[0]
    else parts[0] + sep + Join(parts[1..], sep)
  }

  lemma JoinCons(p: string, rest: seq<string>, sep: string)
    requires |rest| >= 1
    ensures Join([p] + rest, sep) == p + sep + Join(rest, sep)
  {
    assert ([p] + rest)[1..] == rest;
  }

  /** One step of `Split`: the piece before the first separator, then the split of the rest. */
  lemma SplitStep(s: string, sep: string, i: nat)
    requires |sep| > 0 && IndexOf(s, sep, 0) == Some(i)
    ensures i + |sep| <= |s|
    ensures Split(s, sep) == [s[..i]] + Split(s[i + |sep|..], sep)
    ensures s == s[..i] + sep + s[i + |sep|..]
  {
    assert s[i..i + |sep|] == sep;
    assert s == s[..i] + s[i..i + |sep|] + s[i + |sep|..];
  }

  /** Splitting loses nothing: joining the pieces gives the input back. */
  lemma {:induction false} SplitThenJoin(s: string, sep: string)
    requires |sep| > 0
    ensures Join(Split(s, sep), sep) == s
    decreases |s|
  {
    var r := IndexOf(s, sep, 0);
    if r.Some? {
      var i := r.value;
      SplitStep(s, sep, i);
      var head, rest := s[..i], s[i + |sep|..];
      SplitThenJoin(rest, sep);
      JoinCons(head, Split(rest, sep), sep);
    }
  }

  /** No piece of a split contains the separator. */
  lemma {:induction false} SplitPartsFree(s: string, sep: string)
    requires |sep| > 0
    ensures forall k :: 0 <= k < |Split(s, sep)| ==> !Contains(Split(s, sep)[k], sep)
    decreases |s|
  {
    match IndexOf(s, sep, 0)
    case None =>
      assert Split(s, sep) == [s];
    case Some(i) =>
      var rest := s[i + |sep|..];
      SplitPartsFree(rest, sep);
      var head := s[..i];
      forall j: nat | j <= |head| && OccursAt(head, sep, j)
        ensures false
      {
        assert head[j..j + |sep|] == s[j..j + |sep|];
        assert OccursAt(s, sep, j);
      }
      assert Split(s, sep) == [head] + Split(rest, sep);
  }

  /** When no piece holds `sep` and `sep` cannot overlap a boundary, the first occurrence of `sep` in `p + sep + q` is right after `p`. */
  lemma FirstSeparator(p: string, sep: string, q: string)
    requires |sep| > 0 && sep[0] !in sep[1..]
    requires !Contains(p, sep)
    ensures IndexOf(p + sep + q, sep, 0) == Some(|p|)
  {
    var s := p + sep + q;
    assert s[|p|..|p| + |sep|] == sep;
    assert OccursAt(s, sep, |p|);
    forall j: nat | j < |p|
      ensures !OccursAt(s, sep, j)
    {
      if j + |sep| <= |p| {
        assert !OccursAt(p, sep, j);
        assert p[j..j + |sep|] == s[j..j + |sep|];
      } else {
        var d := |p| - j;
        assert sep[1..][d - 1] == sep[d];
        assert sep[d] != sep[0];
        assert s[|p|] == sep[0];
        assert j + |sep| <= |s| ==> s[j..j + |sep|][d] == sep[0];
      }
    }
  }

  /**
   * Joining pieces that do not contain `sep` and splitting again gives the
   * pieces back, provided `sep` cannot straddle a boundary (its first
   * character does not recur in it, true of " " and ": ").
   */
  lemma {:induction false} JoinThenSplit(parts: seq<string>, sep: string)
    requires |parts| >= 1
    requires |sep| > 0 && sep[0] !in sep[1..]
    requires forall k :: 0 <= k < |parts| ==> !Contains(parts[k], sep)
    ensures Split(Join(parts, sep), sep) == parts
    decreases |parts|
  {
    if |parts| == 1 {
      var s := parts[0];
      assert IndexOf(s, sep, 0).None?;
    } else {
      var p0, tail := parts[0], parts[1..];
      assert parts == [p0] + tail;
      JoinCons(p0, tail, sep);
      var rest := Join(tail, sep);
      var s := p0 + sep + rest;
      FirstSeparator(p0, sep, rest);
      SplitStep(s, sep, |p0|);
      assert s[..|p0|] == p0;
      assert s[|p0| + |sep|..] == rest;
      JoinThenSplit(tail, sep);
    }
  }

  /** How many times the character `c` occurs in `s`. */
  function Count(s: string, c: char): nat {
    if s == [] then 0 else (if s[0] == c then 1 else 0) + Count(s[1..], c)
  }

  lemma {:induction false} CountAppend(a: string, b: string, c: char)
    ensures Count(a + b, c) == Count(a, c) + Count(b, c)
  {
    if a != [] {
      assert (a + b)[1..] == a[1..] + b;
      CountAppend(a[1..], b, c);
    } else {
      assert a + b == b;
    }
  }

  lemma {:induction false} CountAbsent(s: string, c: char)
    requires c !in s
    ensures Count(s, c) == 0
  {
    if s != [] {
      CountAbsent(s[1..], c);
    }
  }

  /** A character that is not in the string is not found by `Contains`. */
  lemma AbsentCharNotContained(s: string, c: char)
    requires c !in s
    ensures !Contains(s, [c])
  {
    forall i: nat | i <= |s|
      ensures !OccursAt(s, [c], i)
    {
      if i + 1 <= |s| {
        assert s[i..i + 1] == [s[i]];
      }
    }
  }

  /** A character that `Contains` cannot find is not in the string. */
  lemma NotContainsChar(s: string, c: char)
    requires !Contains(s, [c])
    ensures c !in s
  {
    forall i | 0 <= i < |s| ensures s[i] != c {
      assert !OccursAt(s, [c], i);
      assert s[i..i + 1] == [s[i]];
    }
  }

  /** Splitting on one character gives one more piece than it has occurrences. */
  lemma {:induction false} SplitCount(s: string, c: char)
    ensures |Split(s, [c])| == Count(s, c) + 1
    decreases |s|
  {
    var sep := [c];
    match IndexOf(s, sep, 0)
    case None =>
      forall i | 0 <= i < |s| ensures s[i] != c {
        assert !OccursAt(s, sep, i);
        assert s[i..i + 1] == [s[i]];
      }
      CountAbsent(s, c);
    case Some(i) =>
      var head, rest := s[..i], s[i + 1..];
      SplitCount(rest, c);
      forall j | 0 <= j < |head| ensures head[j] != c {
        assert !OccursAt(s, sep, j);
        assert s[j..j + 1] == [s[j]];
      }
      CountAbsent(head, c);
      assert s[i..i + 1] == sep;
      assert s == head + [c] + rest;
      CountAppend(head + [c], rest, c);
      CountAppend(head, [c], c);
      assert Count([c], c) == 1;
  }

  predicate EndsWith(s: string, pat: string) {
    |pat| <= |s| && s[|s| - |pat|..] == pat
  }

  /** `s.trim_end_matches(pat)`: strips `pat` from the end as often as it is there. */
  function TrimEndMatches(s: string, pat: string): (r: string)
    requires |pat| > 0
    decreases |s|
    ensures |r| <= |s| && r == s[..|r|]
    ensures !EndsWith(r, pat)
    ensures !EndsWith(s, pat) ==> r == s
  {
    if EndsWith(s, pat) then TrimEndMatches(s[..|s| - |pat|], pat) else s
  }

  /** A line holding no line feed of its own loses exactly its one "\r\n". */
  lemma TrimOneTerminator(x: string)
    requires '\n' !in x
    ensures TrimEndMatches(x + CRLF, CRLF) == x
  {
    var s := x + CRLF;
    assert EndsWith(s, CRLF);
    assert s[..|s| - 2] == x;
    assert |x| >= 2 ==> x[|x| - 2..][1] == x[|x| - 1] != '\n';
  }
}
