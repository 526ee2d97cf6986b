/**
 * What `handle_connection` reads from the connection, as functions of the
 * bytes the peer sends: the request line, the header section, the body.
 */
module RequestParser {
  import opened Wrappers
  import opened Ascii
  import opened Text
  import opened HeaderTable
  import opened Stream
  import Response

  /** The text of a chunk read from the connection, trailing CRLFs removed. */
  function LineText(chunk: seq<byte>): string {
    TrimEndMatches(Decode(chunk), CRLF)
  }

  /**
   * The request line must split on " " into exactly method, path and
   * version: it is accepted iff it holds exactly two spaces, and then the
   * three space-free tokens joined by single spaces are the line.
   */
  function ParseRequestLine(line: string): (r: Option<(string, string, string)>)
    ensures r.Some? <==> Count(line, ' ') == 2
    ensures r.Some? ==> r.value.0 + " " + r.value.1 + " " + r.value.2 == line
    ensures r.Some? ==> ' ' !in r.value.0 && ' ' !in r.value.1 && ' ' !in r.value.2
  {
    var parts := Split(line, " ");
    SplitCount(line, ' ');
    if |parts| != 3 then None
    else
      ThreeTokens(line);
      Some((parts[0], parts[1], parts[2]))
  }

  lemma JoinThree(a: string, b: string, c: string, sep: string)
    ensures Join([a, b, c], sep) == a + sep + b + sep + c
  {
    var parts := [a, b, c];
    assert parts[1..] == [b, c] && parts[1..][1..] == [c];
    assert Join([b, c], sep) == b + sep + c;
    assert Join(parts, sep) == a + sep + (b + sep + c);
  }

  /** The three pieces of a request line that splits into three. */
  lemma ThreeTokens(line: string)
    requires |Split(line, " ")| == 3
    ensures var parts := Split(line, " ");
            && parts[0] + " " + parts[1] + " " + parts[2] == line
            && ' ' !in parts[0] && ' ' !in parts[1] && ' ' !in parts[2]
  {
    var parts := Split(line, " ");
    SplitThenJoin(line, " ");
    SplitPartsFree(line, " ");
    assert parts == [parts[0], parts[1], parts[2]];
    JoinThree(parts[0], parts[1], parts[2], " ");
    NotContainsChar(parts[0], ' ');
    NotContainsChar(parts[1], ' ');
    NotContainsChar(parts[2], ' ');
  }

  /** Three space-free tokens joined by single spaces are read back as method, path and version. */
  lemma RequestLineRoundTrip(httpMethod: string, path: string, version: string)
    requires ' ' !in httpMethod && ' ' !in path && ' ' !in version
    ensures ParseRequestLine(httpMethod + " " + path + " " + version) == Some((httpMethod, path, version))
  {
    var parts := [httpMethod, path, version];
    AbsentCharNotContained(httpMethod, ' ');
    AbsentCharNotContained(path, ' ');
    AbsentCharNotContained(version, ' ');
    JoinThree(httpMethod, path, version, " ");
    JoinThenSplit(parts, " ");
  }

  /**
   * A header line must split on ": " into exactly a name and a value;
   * then neither holds ": " and the line is `name: value`.
   */
  function ParseHeaderLine(line: string): (r: Option<(string, string)>)
    ensures r.Some? ==> r.value.0 + ": " + r.value.1 == line
    ensures r.Some? ==> !Contains(r.value.0, ": ") && !Contains(r.value.1, ": ")
  {
    var parts := Split(line, ": ");
    if |parts| != 2 then None
    else
      SplitThenJoin(line, ": ");
      SplitPartsFree(line, ": ");
      assert parts[1..] == [parts[1]];
      Some((parts[0], parts[1]))
  }

  /** `name: value` is accepted as exactly that pair when neither part holds ": ". */
  lemma HeaderLineRoundTrip(name: string, value: string)
    requires !Contains(name, ": ") && !Contains(value, ": ")
    ensures ParseHeaderLine(name + ": " + value) == Some((name, value))
  {
    var parts := [name, value];
    assert parts[1..] == [value];
    JoinThenSplit(parts, ": ");
  }

  /** A value holding ": " makes its whole line be dropped. */
  lemma ValueWithSeparatorDropped(name: string, value: string)
    requires !Contains(name, ": ") && Contains(value, ": ")
    ensures ParseHeaderLine(name + ": " + value).None?
  {
    var line := name + ": " + value;
    FirstSeparator(name, ": ", value);
    SplitStep(line, ": ", |name|);
    assert line[|name| + 2..] == value;
    var i: nat :| i <= |value| && OccursAt(value, ": ", i);
    var j := IndexOf(value, ": ", 0);
    assert j.Some?;
    SplitStep(value, ": ", j.value);
    assert |Split(line, ": ")| >= 3;
  }

  /**
   * The header section starting at `p`: the text of each chunk read before
   * the first chunk of at most two bytes, and the position just after that
   * chunk.
   */
  function HeaderSection(input: seq<byte>, p: nat): (r: (seq<string>, nat))
    requires p <= |input|
    decreases |input| - p
    ensures p <= r.1 <= |input|
  {
    var e := LineEnd(input, p);
    if e - p <= 2 then ([], e)
    else
      var rest := HeaderSection(input, e);
      ([LineText(input[p..e])] + rest.0, rest.1)
  }

  /** The pairs `parse` finds in `lines`, in order; a line it rejects contributes nothing. */
  function Collect(lines: seq<string>, parse: string -> Option<(string, string)>): seq<(string, string)> {
    if lines == [] then []
    else
      Collect(lines[..|lines| - 1], parse)
      + match parse(lines[|lines| - 1])
        case Some(pair) => [pair]
        case None => []
  }

  /** The name/value pairs of the lines that split correctly, in order. */
  function Accepted(lines: seq<string>): seq<(string, string)> {
    Collect(lines, ParseHeaderLine)
  }

  /** `keep_alive` after the accepted headers: cleared by a `Connection: close` pair, written in exactly that case. */
  function KeepAliveAfter(pairs: seq<(string, string)>): bool {
    if pairs == [] then true
    else KeepAliveAfter(pairs[..|pairs| - 1]) && pairs[|pairs| - 1] != (CONNECTION_HEADER, "close")
  }

  function Zeros(n: nat): (z: seq<byte>)
    ensures |z| == n && forall i :: 0 <= i < n ==> z[i] == 0
  {
    seq(n, _ => 0)
  }

  function Min(a: nat, b: nat): nat {
    if a < b then a else b
  }

  /**
   * The body and the position after it: for a declared length `L`, a buffer
   * of `L` zero bytes whose front is filled with as many of the next bytes
   * as there are (at most `L`); no declared length, no body.
   */
  function BodyOf(input: seq<byte>, q: nat, length: Result<nat, HttpError>): (r: (seq<byte>, nat))
    requires q <= |input|
    ensures q <= r.1 <= |input|
    ensures length.Ok? ==> |r.0| == length.value && r.1 == q + Min(length.value, |input| - q)
    ensures length.Ok? ==> r.0[..r.1 - q] == input[q..r.1]
    ensures length.Ok? ==> forall i :: r.1 - q <= i < |r.0| ==> r.0[i] == 0
    ensures length.Err? ==> r == ([], q)
  {
    match length
    case Ok(l) =>
      var n := Min(l, |input| - q);
      (input[q..q + n] + Zeros(l - n), q + n)
    case Err(_) => ([], q)
  }

  datatype Parse =
    | PeerClosed
    | BadRequestLine(next: nat)
    | Parsed(httpMethod: string, path: string, version: string, headers: seq<(string, string)>, body: seq<byte>, next: nat)

  /**
   * One request read from `p`: a zero-length first read means the peer has
   * gone; a request line that is not three tokens is refused; otherwise the
   * header section and the body follow.
   */
  function ParseRequest(input: seq<byte>, p: nat): (r: Parse)
    requires p <= |input|
    ensures r.PeerClosed? <==> p == |input|
    ensures !r.PeerClosed? ==> p < r.next <= |input|
  {
    var e := LineEnd(input, p);
    if e == p then PeerClosed
    else
      match ParseRequestLine(LineText(input[p..e]))
      case None => BadRequestLine(e)
      case Some((httpMethod, path, version)) =>
        var (lines, q) := HeaderSection(input, e);
        var pairs := Accepted(lines);
        var (body, next) := BodyOf(input, q, ContentLengthIn(KvOf(pairs)));
        Parsed(httpMethod, path, version, pairs, body, next)
  }

  /** Collecting distributes over concatenation. */
  lemma {:induction false} CollectAppend(a: seq<string>, b: seq<string>, parse: string -> Option<(string, string)>)
    ensures Collect(a + b, parse) == Collect(a, parse) + Collect(b, parse)
    decreases |b|
  {
    if b == [] {
      assert a + b == a;
    } else {
      var init := b[..|b| - 1];
      CollectAppend(a, init, parse);
      assert (a + b)[..|a + b| - 1] == a + init;
      assert (a + b)[|a + b| - 1] == b[|b| - 1];
    }
  }

  /** One line collected on its own. */
  lemma CollectOne(line: string, parse: string -> Option<(string, string)>)
    ensures parse(line).None? ==> Collect([line], parse) == []
    ensures parse(line).Some? ==> Collect([line], parse) == [parse(line).value]
  {
    assert [line][..0] == [];
  }

  /** Accepting lines distributes over concatenation. */
  lemma AcceptedAppend(a: seq<string>, b: seq<string>)
    ensures Accepted(a + b) == Accepted(a) + Accepted(b)
  {
    CollectAppend(a, b, ParseHeaderLine);
  }

  /** A line that does not split into exactly two parts is skipped and changes nothing about the lines around it. */
  lemma MalformedLineSkipped(before: seq<string>, line: string, after: seq<string>)
    requires ParseHeaderLine(line).None?
    ensures Accepted(before + [line] + after) == Accepted(before + after)
  {
    CollectAppend(before + [line], after, ParseHeaderLine);
    CollectAppend(before, [line], ParseHeaderLine);
    CollectAppend(before, after, ParseHeaderLine);
    CollectOne(line, ParseHeaderLine);
  }

  /** The flag stays set exactly when no accepted pair is, in exact case, `Connection: close`. */
  lemma {:induction false} KeepAliveIff(pairs: seq<(string, string)>)
    ensures KeepAliveAfter(pairs) <==> forall i :: 0 <= i < |pairs| ==> pairs[i] != (CONNECTION_HEADER, "close")
    decreases |pairs|
  {
    if pairs != [] {
      var init := pairs[..|pairs| - 1];
      KeepAliveIff(init);
      assert forall i :: 0 <= i < |init| ==> init[i] == pairs[i];
    }
  }

  /** Once cleared the flag never comes back, whatever headers follow. */
  lemma CloseIsFinal(pairs: seq<(string, string)>, later: seq<(string, string)>)
    requires !KeepAliveAfter(pairs)
    ensures !KeepAliveAfter(pairs + later)
  {
    KeepAliveIff(pairs);
    KeepAliveIff(pairs + later);
    var i :| 0 <= i < |pairs| && pairs[i] == (CONNECTION_HEADER, "close");
    assert (pairs + later)[i] == pairs[i];
  }

  /** The check is on the exact name and value: other spellings keep the connection open, although lookups still find them. */
  lemma ConnectionCheckIsExact()
    ensures KeepAliveAfter([("connection", "close")])
    ensures KeepAliveAfter([(CONNECTION_HEADER, "Close")])
    ensures !KeepAliveAfter([(CONNECTION_HEADER, "close")])
  {
    assert [("connection", "close")][..0] == [];
    assert [(CONNECTION_HEADER, "Close")][..0] == [];
    assert [(CONNECTION_HEADER, "close")][..0] == [];
  }

  /**
   * The body: exactly the declared length when `get_content_length`
   * succeeds, its front the bytes that follow the header section; empty
   * otherwise.
   */
  lemma ParsedBody(input: seq<byte>, p: nat)
    requires p <= |input| && ParseRequest(input, p).Parsed?
    ensures var r := ParseRequest(input, p);
            var q := HeaderSection(input, LineEnd(input, p)).1;
            match ContentLengthIn(KvOf(r.headers))
            case Ok(l) => |r.body| == l && r.body[..r.next - q] == input[q..r.next]
            case Err(_) => r.body == [] && r.next == q
  {
  }

  /** A header the block can carry and the parser reads back unchanged: no line feed, no ": " in name or value. */
  predicate Transmissible(entry: (string, string)) {
    && '\n' !in entry.0 && '\n' !in entry.1
    && !Contains(entry.0, ": ") && !Contains(entry.1, ": ")
  }

  /**
   * Every entry of the list is `Transmissible`, stated head first so that the
   * round-trip proof unfolds one entry at a time; `EveryTransmissible` ties
   * it to the quantified form, and it means nothing more.
   */
  predicate AllTransmissible(entries: seq<(string, string)>)
    decreases |entries|
  {
    entries == [] || (Transmissible(entries[0]) && AllTransmissible(entries[1..]))
  }

  lemma {:induction false} EveryTransmissible(entries: seq<(string, string)>)
    requires forall i :: 0 <= i < |entries| ==> Transmissible(entries[i])
    ensures AllTransmissible(entries)
    decreases |entries|
  {
    if entries != [] {
      var rest := entries[1..];
      forall i | 0 <= i < |rest|
        ensures Transmissible(rest[i])
      {
        assert rest[i] == entries[i + 1];
      }
      EveryTransmissible(rest);
    }
  }

  /** `read_until` stops at the first line feed. */
  lemma {:induction false} LineEndAt(input: seq<byte>, p: nat, n: nat)
    requires n >= 1 && p + n <= |input|
    requires input[p + n - 1] == LF
    requires forall i :: p <= i < p + n - 1 ==> input[i] != LF
    ensures LineEnd(input, p) == p + n
    decreases n
  {
    if n > 1 {
      LineEndAt(input, p + 1, n - 1);
    }
  }

  /**
   * The bytes of `input` from `p` on spell `s`, one byte per character. This
   * is `Decode(input[p..p + |s|]) == s` (`SpellsDecode`) written index by
   * index, which keeps the round-trip proofs off slices; it means nothing more.
   */
  predicate Spells(input: seq<byte>, p: nat, s: string) {
    p + |s| <= |input| && MatchesFrom(input, p, s, 0)
  }

  /** The characters of `s` from index `k` on are spelt by the bytes at the same offsets from `p`. */
  predicate MatchesFrom(input: seq<byte>, p: nat, s: string, k: nat)
    decreases |s| - k
  {
    k >= |s| || (p + k < |input| && input[p + k] == s[k] as int && MatchesFrom(input, p, s, k + 1))
  }

  /** `Spells`, byte by byte. */
  lemma SpellsAt(input: seq<byte>, p: nat, s: string)
    requires Spells(input, p, s)
    ensures forall i :: 0 <= i < |s| ==> input[p + i] == s[i] as int
  {
    MatchesAt(input, p, s, 0);
  }

  lemma {:induction false} MatchesAt(input: seq<byte>, p: nat, s: string, k: nat)
    requires MatchesFrom(input, p, s, k)
    ensures forall i :: k <= i < |s| && p + i < |input| ==> input[p + i] == s[i] as int
    decreases |s| - k
  {
    if k < |s| {
      MatchesAt(input, p, s, k + 1);
    }
  }

  /** Byte by byte, `Spells`. */
  lemma SpellsFrom(input: seq<byte>, p: nat, s: string)
    requires p + |s| <= |input|
    requires forall i :: 0 <= i < |s| ==> input[p + i] == s[i] as int
    ensures Spells(input, p, s)
  {
    MatchesOf(input, p, s, 0);
  }

  lemma {:induction false} MatchesOf(input: seq<byte>, p: nat, s: string, k: nat)
    requires p + |s| <= |input|
    requires forall i :: k <= i < |s| ==> input[p + i] == s[i] as int
    ensures MatchesFrom(input, p, s, k)
    decreases |s| - k
  {
    if k < |s| {
      MatchesOf(input, p, s, k + 1);
    }
  }

  lemma SpellsDecode(input: seq<byte>, p: nat, s: string)
    requires p + |s| <= |input|
    ensures Spells(input, p, s) <==> Decode(input[p..p + |s|]) == s
  {
    var d := Decode(input[p..p + |s|]);
    if Spells(input, p, s) {
      SpellsAt(input, p, s);
      forall i | 0 <= i < |s| ensures d[i] == s[i] {
        assert d[i] as int == input[p + i];
      }
    }
    if d == s {
      forall i | 0 <= i < |s| ensures input[p + i] == s[i] as int {
        assert d[i] as int == input[p + i];
      }
      SpellsFrom(input, p, s);
    }
  }

  lemma SpellsSplit(input: seq<byte>, p: nat, a: string, b: string)
    requires Spells(input, p, a + b)
    ensures Spells(input, p, a) && Spells(input, p + |a|, b)
  {
    SpellsAt(input, p, a + b);
    forall i | 0 <= i < |a| ensures input[p + i] == a[i] as int {
      assert (a + b)[i] == a[i];
    }
    forall i | 0 <= i < |b| ensures input[p + |a| + i] == b[i] as int {
      assert (a + b)[|a| + i] == b[i];
    }
    SpellsFrom(input, p, a);
    SpellsFrom(input, p + |a|, b);
  }

  /** The bytes of a header line as written, read back as one chunk that parses as the same pair. */
  lemma ReadHeaderLine(input: seq<byte>, p: nat, e: nat, entry: (string, string))
    requires Transmissible(entry)
    requires Spells(input, p, Response.HeaderLine(entry)) && e == p + |Response.HeaderLine(entry)|
    ensures e <= |input| && LineEnd(input, p) == e > p + 2
    ensures ParseHeaderLine(LineText(input[p..e])) == Some(entry)
  {
    HeaderLineEnd(input, p, entry);
    HeaderLineText(input, p, entry);
    HeaderLineRoundTrip(entry.0, entry.1);
    ParsesAs(LineText(input[p..e]), entry.0 + ": " + entry.1, entry);
  }

  /**
   * Rewriting with an equation already known. Kept as a lemma so that the
   * rewrite is checked apart from `ReadHeaderLine`'s slices and decodings,
   * where the same step as an inline assertion is too costly for the solver.
   */
  lemma ParsesAs(x: string, y: string, entry: (string, string))
    requires x == y && ParseHeaderLine(y) == Some((entry.0, entry.1))
    ensures ParseHeaderLine(x) == Some(entry)
  {
  }

  /** `read_until` returns exactly the written header line: its only line feed is its last byte. */
  lemma HeaderLineEnd(input: seq<byte>, p: nat, entry: (string, string))
    requires '\n' !in entry.0 && '\n' !in entry.1
    requires Spells(input, p, Response.HeaderLine(entry))
    ensures LineEnd(input, p) == p + |Response.HeaderLine(entry)| > p + 2
  {
    var line := Response.HeaderLine(entry);
    var n := |line|;
    var body := entry.0 + ": " + entry.1;
    assert line == body + CRLF;
    assert '\n' !in body;
    SpellsAt(input, p, line);
    forall i | p <= i < p + n - 1
      ensures input[i] != LF
    {
      assert input[p + (i - p)] == line[i - p] as int;
      if i - p < |body| {
        assert line[i - p] == body[i - p];
      } else {
        assert line[i - p] == '\r';
      }
    }
    assert input[p + (n - 1)] == line[n - 1] as int;
    LineEndAt(input, p, n);
  }

  /** With its terminator trimmed, the written header line is `name: value` again. */
  lemma HeaderLineText(input: seq<byte>, p: nat, entry: (string, string))
    requires '\n' !in entry.0 && '\n' !in entry.1
    requires Spells(input, p, Response.HeaderLine(entry))
    ensures LineText(input[p..p + |Response.HeaderLine(entry)|]) == entry.0 + ": " + entry.1
  {
    var body := entry.0 + ": " + entry.1;
    assert Response.HeaderLine(entry) == body + CRLF;
    assert '\n' !in body;
    var chunk := input[p..p + |Response.HeaderLine(entry)|];
    SpellsDecode(input, p, Response.HeaderLine(entry));
    assert Decode(chunk) == body + CRLF;
    TrimOneTerminator(body);
    assert LineText(chunk) == TrimEndMatches(body + CRLF, CRLF);
  }

  /** A written header line, read by the header loop, contributes its pair ahead of what follows. */
  lemma LineThenRest(input: seq<byte>, p: nat, e: nat, entry: (string, string))
    requires Transmissible(entry)
    requires Spells(input, p, Response.HeaderLine(entry)) && e == p + |Response.HeaderLine(entry)|
    ensures e <= |input|
    ensures HeaderSection(input, p).1 == HeaderSection(input, e).1
    ensures Accepted(HeaderSection(input, p).0) == [entry] + Accepted(HeaderSection(input, e).0)
  {
    ReadHeaderLine(input, p, e, entry);
    AcceptOneMore(input, p, e, entry);
  }

  /**
   * Writing headers with `send_response` and reading them back with the
   * header loop: the lines are accepted as exactly the written pairs, in
   * order, and the section ends just after the blank line.
   */
  lemma {:induction false} HeaderBlockReparses(input: seq<byte>, p: nat, entries: seq<(string, string)>)
    requires AllTransmissible(entries)
    requires Spells(input, p, Response.HeaderBlock(entries) + CRLF)
    ensures HeaderSection(input, p).1 == p + |Response.HeaderBlock(entries)| + 2
    ensures Accepted(HeaderSection(input, p).0) == entries
    decreases |entries|
  {
    if entries == [] {
      EmptyBlockReparses(input, p, entries);
    } else {
      var e, rest := entries[0], entries[1..];
      var n := |Response.HeaderLine(e)|;
      BlockSplit(input, p, entries);
      LineThenRest(input, p, p + n, e);
      HeaderBlockReparses(input, p + n, rest);
    }
  }

  /** The first line of a non-empty block, and the rest of the block behind it. */
  lemma BlockSplit(input: seq<byte>, p: nat, entries: seq<(string, string)>)
    requires entries != []
    requires AllTransmissible(entries)
    requires Spells(input, p, Response.HeaderBlock(entries) + CRLF)
    ensures entries == [entries[0]] + entries[1..]
    ensures Transmissible(entries[0]) && AllTransmissible(entries[1..])
    ensures Spells(input, p, Response.HeaderLine(entries[0]))
    ensures Spells(input, p + |Response.HeaderLine(entries[0])|, Response.HeaderBlock(entries[1..]) + CRLF)
    ensures |Response.HeaderBlock(entries)| == |Response.HeaderLine(entries[0])| + |Response.HeaderBlock(entries[1..])|
  {
    var e, rest := entries[0], entries[1..];
    assert entries == [e] + rest;
    Response.HeaderBlockCons(e, rest);
    var line := Response.HeaderLine(e);
    var restBlock := Response.HeaderBlock(rest);
    assert line + restBlock + CRLF == line + (restBlock + CRLF);
    SpellsSplit(input, p, line, restBlock + CRLF);
  }

  lemma EmptyBlockReparses(input: seq<byte>, p: nat, entries: seq<(string, string)>)
    requires entries == []
    requires Spells(input, p, Response.HeaderBlock(entries) + CRLF)
    ensures HeaderSection(input, p).1 == p + |Response.HeaderBlock(entries)| + 2
    ensures Accepted(HeaderSection(input, p).0) == entries
  {
    assert Response.HeaderBlock(entries) + CRLF == CRLF;
    BlankLineEndsSection(input, p);
  }

  /** The blank line closes the section without adding a line. */
  lemma BlankLineEndsSection(input: seq<byte>, p: nat)
    requires Spells(input, p, CRLF)
    ensures HeaderSection(input, p) == ([], p + 2)
  {
    SpellsAt(input, p, CRLF);
    assert input[p + 0] == CRLF[0] as int && input[p + 1] == CRLF[1] as int;
    LineEndAt(input, p, 2);
  }

  /** A header line accepted as `pair` in front of the rest of the section. */
  lemma AcceptOneMore(input: seq<byte>, p: nat, e: nat, pair: (string, string))
    requires p <= |input| && LineEnd(input, p) == e && e > p + 2
    requires ParseHeaderLine(LineText(input[p..e])) == Some(pair)
    ensures HeaderSection(input, p).1 == HeaderSection(input, e).1
    ensures Accepted(HeaderSection(input, p).0) == [pair] + Accepted(HeaderSection(input, e).0)
  {
    var x := LineText(input[p..e]);
    var rest := HeaderSection(input, e).0;
    HeaderSectionStep(input, p, e);
    AcceptedCons(x, rest, pair);
  }

  /** One step of the header loop over a line longer than a bare terminator. */
  lemma HeaderSectionStep(input: seq<byte>, p: nat, e: nat)
    requires p <= |input| && LineEnd(input, p) == e && e > p + 2
    ensures HeaderSection(input, p).0 == [LineText(input[p..e])] + HeaderSection(input, e).0
    ensures HeaderSection(input, p).1 == HeaderSection(input, e).1
  {
  }

  /** A line that parses as `e`, in front of more lines, contributes `e` first. */
  lemma AcceptedCons(x: string, rest: seq<string>, e: (string, string))
    requires ParseHeaderLine(x) == Some(e)
    ensures Accepted([x] + rest) == [e] + Accepted(rest)
  {
    CollectAppend([x], rest, ParseHeaderLine);
    CollectOne(x, ParseHeaderLine);
  }

  /** A list that names every entry of `m` once, added in turn, gives back `m`. */
  lemma RawOfEnumeration(entries: seq<(string, string)>, m: map<string, string>)
    requires Response.Enumerates(entries, m)
    ensures RawOf(entries) == m
  {
    forall k | k in m
      ensures k in RawOf(entries) && RawOf(entries)[k] == m[k]
    {
      RawOfLastWins(entries, k);
      var i :| 0 <= i < |entries| && entries[i].0 == k;
      assert LastNamed(entries, i, k);
    }
    forall k | k in RawOf(entries)
      ensures k in m
    {
      RawOfLastWins(entries, k);
    }
  }

  /**
   * The round trip of a header table: serialised by `send_response` in any
   * order and read back by the header loop, it is the same table, name for
   * exact name.
   */
  lemma HeaderTableRoundTrip(input: seq<byte>, p: nat, entries: seq<(string, string)>, m: map<string, string>)
    requires Response.Enumerates(entries, m)
    requires forall k :: k in m ==> Transmissible((k, m[k]))
    requires p + |Response.HeaderBlock(entries)| + 2 <= |input|
    requires Decode(input[p..p + |Response.HeaderBlock(entries)| + 2]) == Response.HeaderBlock(entries) + CRLF
    ensures RawOf(Accepted(HeaderSection(input, p).0)) == m
  {
    SpellsDecode(input, p, Response.HeaderBlock(entries) + CRLF);
    forall i | 0 <= i < |entries|
      ensures Transmissible(entries[i])
    {
      assert entries[i].0 in m;
    }
    EveryTransmissible(entries);
    HeaderBlockReparses(input, p, entries);
    RawOfEnumeration(entries, m);
  }
}
