/**
 * `handle_connection`: read one request from the connection, answer it,
 * and report whether the connection is to be kept open.
 */
module Server {
  import opened Wrappers
  import opened Ascii
  import opened HeaderTable
  import opened Stream
  import opened Status
  import opened Response
  import opened RequestParser

  /** `struct Request`: the parsed request line, its headers, its body and the keep-alive flag. */
  class Request {
    const httpMethod: string
    const path: string
    const version: string
    const headers: Headers
    var body: seq<byte>
    var keepAlive: bool

    constructor (httpMethod: string, path: string, version: string)
      ensures this.httpMethod == httpMethod && this.path == path && this.version == version
      ensures fresh(headers) && headers.Valid() && headers.kv == map[] && headers.raw == map[]
      ensures body == [] && keepAlive
    {
      this.httpMethod := httpMethod;
      this.path := path;
      this.version := version;
      headers := new Headers();
      body := [];
      keepAlive := true;
    }
  }

  /**
   * What `handle_connection` ends with: the keep-alive answer it returns, or
   * the panic of `get("Host").unwrap()` on a request without a `Host` header,
   * which drops the connection without a response.
   */
  datatype Outcome = Done(keepAlive: bool) | HostMissing

  /** The table the 204 response starts from, before `send_response` adds its own three headers. */
  function NoContentHeaders(host: string): (m: map<string, string>)
    ensures m.Keys == {"Content-type", "Host"}
    ensures m["Content-type"] == "application/json" && m["Host"] == host
  {
    map["Content-type" := "application/json", "Host" := host]
  }

  /** One more line of the header section, accepted or skipped. */
  lemma AcceptedSnoc(lines: seq<string>, line: string)
    ensures ParseHeaderLine(line).None? ==> Accepted(lines + [line]) == Accepted(lines)
    ensures ParseHeaderLine(line).Some? ==> Accepted(lines + [line]) == Accepted(lines) + [ParseHeaderLine(line).value]
  {
    CollectAppend(lines, [line], ParseHeaderLine);
    CollectOne(line, ParseHeaderLine);
  }

  /** Adding one more pair updates both maps and the flag the way one step of the header loop does. */
  lemma PairsSnoc(pairs: seq<(string, string)>, pair: (string, string))
    ensures KvOf(pairs + [pair]) == KvOf(pairs)[LowerStr(pair.0) := pair.1]
    ensures RawOf(pairs + [pair]) == RawOf(pairs)[pair.0 := pair.1]
    ensures KeepAliveAfter(pairs + [pair]) == (KeepAliveAfter(pairs) && !(pair.0 == CONNECTION_HEADER && pair.1 == "close"))
  {
    assert (pairs + [pair])[..|pairs|] == pairs;
  }

  /** The chunk read at `before` is the blank line: the section read from `p0` is complete. */
  lemma SectionEnds(input: seq<byte>, p0: nat, before: nat, lines: seq<string>)
    requires p0 <= before <= |input| && LineEnd(input, before) - before <= 2
    requires HeaderSection(input, p0).0 == lines + HeaderSection(input, before).0
    requires HeaderSection(input, p0).1 == HeaderSection(input, before).1
    ensures HeaderSection(input, p0) == (lines, LineEnd(input, before))
  {
    assert HeaderSection(input, before) == ([], LineEnd(input, before));
    assert lines + [] == lines;
  }

  /** The chunk read at `before` is a header line: it joins the lines read so far. */
  lemma SectionContinues(input: seq<byte>, p0: nat, before: nat, after: nat, lines: seq<string>)
    requires p0 <= before <= |input| && LineEnd(input, before) == after && after > before + 2
    requires HeaderSection(input, p0).0 == lines + HeaderSection(input, before).0
    requires HeaderSection(input, p0).1 == HeaderSection(input, before).1
    ensures HeaderSection(input, p0).0 == (lines + [LineText(input[before..after])]) + HeaderSection(input, after).0
    ensures HeaderSection(input, p0).1 == HeaderSection(input, after).1
  {
    HeaderSectionStep(input, before, after);
    var text := LineText(input[before..after]);
    var rest := HeaderSection(input, after).0;
    assert lines + ([text] + rest) == (lines + [text]) + rest;
  }

  /** One pass of the header loop on a line: the table and the flag after it, given those before it. */
  lemma LineStep(lines: seq<string>, text: string)
    ensures ParseHeaderLine(text).None? ==>
      && KvOf(Accepted(lines + [text])) == KvOf(Accepted(lines))
      && RawOf(Accepted(lines + [text])) == RawOf(Accepted(lines))
      && KeepAliveAfter(Accepted(lines + [text])) == KeepAliveAfter(Accepted(lines))
    ensures ParseHeaderLine(text).Some? ==>
      var (key, value) := ParseHeaderLine(text).value;
      && KvOf(Accepted(lines + [text])) == KvOf(Accepted(lines))[LowerStr(key) := value]
      && RawOf(Accepted(lines + [text])) == RawOf(Accepted(lines))[key := value]
      && KeepAliveAfter(Accepted(lines + [text])) == (KeepAliveAfter(Accepted(lines)) && !(key == CONNECTION_HEADER && value == "close"))
  {
    AcceptedSnoc(lines, text);
    if ParseHeaderLine(text).Some? {
      PairsSnoc(Accepted(lines), ParseHeaderLine(text).value);
    }
  }

  /**
   * One pass of the header loop: reads a chunk; stops on one of at most two
   * bytes; otherwise adds the line's pair when it splits on ": " into
   * exactly two parts, clearing the keep-alive flag on an exact
   * `Connection: close`.
   */
  method ReadHeaderLineInto(conn: Connection, request: Request) returns (done: bool, ghost text: string)
    requires conn.Valid() && request.headers.Valid()
    modifies conn`pos, request.headers, request`keepAlive
    ensures conn.Valid() && request.headers.Valid()
    ensures conn.pos == LineEnd(conn.input, old(conn.pos))
    ensures done <==> conn.pos - old(conn.pos) <= 2
    ensures !done ==> text == LineText(conn.input[old(conn.pos)..conn.pos])
    ensures done || ParseHeaderLine(text).None? ==>
      && request.headers.kv == old(request.headers.kv)
      && request.headers.raw == old(request.headers.raw)
      && request.keepAlive == old(request.keepAlive)
    ensures !done && ParseHeaderLine(text).Some? ==>
      var (key, value) := ParseHeaderLine(text).value;
      && request.headers.kv == old(request.headers.kv)[LowerStr(key) := value]
      && request.headers.raw == old(request.headers.raw)[key := value]
      && request.keepAlive == (old(request.keepAlive) && !(key == CONNECTION_HEADER && value == "close"))
  {
    var chunk := conn.ReadUntilNewline();
    text := "";
    if |chunk| <= 2 {
      return true, text;
    }
    var line := LineText(chunk);
    text := line;
    var parsed := ParseHeaderLine(line);
    if parsed.None? {
      return false, text;
    }
    var (key, value) := parsed.value;
    request.headers.Add(key, value);
    if key == CONNECTION_HEADER && value == "close" {
      request.keepAlive := false;
    }
    done := false;
  }

  /** The header loop: the header section read from the current position, added to the request in order. */
  method ReadHeaders(conn: Connection, request: Request)
    requires conn.Valid() && request.headers.Valid()
    requires request.headers.kv == map[] && request.headers.raw == map[] && request.keepAlive
    modifies conn`pos, request.headers, request`keepAlive
    ensures conn.Valid()
    ensures conn.pos == HeaderSection(conn.input, old(conn.pos)).1
    ensures var pairs := Accepted(HeaderSection(conn.input, old(conn.pos)).0);
            && request.headers.Valid()
            && request.headers.kv == KvOf(pairs)
            && request.headers.raw == RawOf(pairs)
            && request.keepAlive == KeepAliveAfter(pairs)
  {
    ghost var p0 := conn.pos;
    ghost var lines: seq<string> := [];
    while true
      invariant conn.Valid() && p0 <= conn.pos
      invariant request.headers.Valid()
      invariant HeaderSection(conn.input, p0).0 == lines + HeaderSection(conn.input, conn.pos).0
      invariant HeaderSection(conn.input, p0).1 == HeaderSection(conn.input, conn.pos).1
      invariant request.headers.kv == KvOf(Accepted(lines))
      invariant request.headers.raw == RawOf(Accepted(lines))
      invariant request.keepAlive == KeepAliveAfter(Accepted(lines))
      decreases |conn.input| - conn.pos
    {
      ghost var before := conn.pos;
      var done, text := ReadHeaderLineInto(conn, request);
      if done {
        SectionEnds(conn.input, p0, before, lines);
        break;
      }
      SectionContinues(conn.input, p0, before, conn.pos, lines);
      LineStep(lines, text);
      lines := lines + [text];
    }
  }

  /**
   * `if let Ok(length) = request.headers.get_content_length()`: a zeroed
   * buffer of the declared length, filled by one `read`; without a usable
   * length the body stays as it was.
   */
  method ReadBody(conn: Connection, request: Request)
    requires conn.Valid() && request.headers.Valid()
    modifies conn`pos, request`body
    ensures conn.Valid()
    ensures conn.pos == BodyOf(conn.input, old(conn.pos), ContentLengthIn(request.headers.kv)).1
    ensures ContentLengthIn(request.headers.kv).Ok? ==> request.body == BodyOf(conn.input, old(conn.pos), ContentLengthIn(request.headers.kv)).0
    ensures ContentLengthIn(request.headers.kv).Err? ==> request.body == old(request.body)
  {
    var length := request.headers.GetContentLength();
    if length.Ok? {
      var body := new byte[length.value](_ => 0);
      ghost var zeroed := body[..];
      ghost var q := conn.pos;
      var n := conn.Read(body);
      assert zeroed[n..] == Zeros(length.value - n);
      request.body := body[..];
    }
  }

  /**
   * What is written for a request whose lookup map is `kv`: with no `Host`
   * header the `unwrap` panics and nothing is written; otherwise one `204`
   * response carrying that host and the keep-alive flag, which is also the
   * answer.
   */
  predicate RespondedTo(kv: map<string, string>, keepAlive: bool, outcome: Outcome, emitted: seq<(string, string)>, before: string, after: string) {
    match LookupIn(kv, "Host")
    case None => outcome == HostMissing && after == before
    case Some(host) =>
      && outcome == Done(keepAlive)
      && Enumerates(emitted, WithServerHeaders(NoContentHeaders(host), keepAlive, 0))
      && after == before + ResponseText(NoContent, emitted, "")
  }

  /** The `204` answer: a fresh table with `Content-type` and the request's `Host`, sent with the request's flag. */
  method SendNoContent(conn: Connection, request: Request) returns (outcome: Outcome, ghost emitted: seq<(string, string)>)
    requires conn.Valid() && request.headers.Valid()
    modifies conn
    ensures conn.Valid() && conn.pos == old(conn.pos)
    ensures RespondedTo(request.headers.kv, request.keepAlive, outcome, emitted, old(conn.output), conn.output)
  {
    emitted := [];
    ghost var before := conn.output;
    var headers, host := NoContentTable(request);
    if host.None? {
      Answered(request.headers.kv, request.keepAlive, HostMissing, emitted, before, conn.output);
      return HostMissing, emitted;
    }
    emitted := SendResponse(conn, NoContent, headers, request.keepAlive, "");
    outcome := Done(request.keepAlive);
    Answered(request.headers.kv, request.keepAlive, outcome, emitted, before, conn.output);
  }

  lemma Answered(kv: map<string, string>, keepAlive: bool, outcome: Outcome, emitted: seq<(string, string)>, before: string, after: string)
    requires LookupIn(kv, "Host").None? ==> outcome == HostMissing && after == before
    requires LookupIn(kv, "Host").Some? ==>
      && outcome == Done(keepAlive)
      && Enumerates(emitted, WithServerHeaders(NoContentHeaders(LookupIn(kv, "Host").value), keepAlive, 0))
      && after == before + ResponseText(NoContent, emitted, "")
    ensures RespondedTo(kv, keepAlive, outcome, emitted, before, after)
  {
  }

  /**
   * The table of the `204` response: `Content-type` added first, then the
   * request's `Host`, looked up case-insensitively; `host` is `None` where
   * the `unwrap` panics.
   */
  method NoContentTable(request: Request) returns (headers: Headers, host: Option<string>)
    requires request.headers.Valid()
    ensures fresh(headers) && headers.Valid()
    ensures host == LookupIn(request.headers.kv, "Host")
    ensures host.Some? ==> headers.raw == NoContentHeaders(host.value)
  {
    headers := new Headers();
    headers.Add("Content-type", "application/json");
    host := request.headers.Get("Host");
    if host.Some? {
      headers.Add("Host", host.value);
    }
  }

  /** Everything after the request line: the header loop, the body, and the `204` response. */
  method AnswerRequest(conn: Connection, request: Request) returns (outcome: Outcome, ghost emitted: seq<(string, string)>)
    requires conn.Valid() && request.headers.Valid()
    requires request.headers.kv == map[] && request.headers.raw == map[] && request.keepAlive
    modifies conn, request, request.headers
    ensures conn.Valid() && request.headers.Valid()
    ensures var pairs := Accepted(HeaderSection(conn.input, old(conn.pos)).0);
            && request.headers.kv == KvOf(pairs)
            && request.headers.raw == RawOf(pairs)
            && request.keepAlive == KeepAliveAfter(pairs)
            && conn.pos == BodyOf(conn.input, HeaderSection(conn.input, old(conn.pos)).1, ContentLengthIn(KvOf(pairs))).1
            && (ContentLengthIn(KvOf(pairs)).Ok? ==>
                  request.body == BodyOf(conn.input, HeaderSection(conn.input, old(conn.pos)).1, ContentLengthIn(KvOf(pairs))).0)
            && (ContentLengthIn(KvOf(pairs)).Err? ==> request.body == old(request.body))
            && RespondedTo(KvOf(pairs), KeepAliveAfter(pairs), outcome, emitted, old(conn.output), conn.output)
  {
    ReadHeadersAndBody(conn, request);
    outcome, emitted := SendNoContent(conn, request);
  }

  /** The header loop, then the body. */
  method ReadHeadersAndBody(conn: Connection, request: Request)
    requires conn.Valid() && request.headers.Valid()
    requires request.headers.kv == map[] && request.headers.raw == map[] && request.keepAlive
    modifies conn`pos, request.headers, request`keepAlive, request`body
    ensures conn.Valid() && request.headers.Valid()
    ensures var pairs := Accepted(HeaderSection(conn.input, old(conn.pos)).0);
            && request.headers.kv == KvOf(pairs)
            && request.headers.raw == RawOf(pairs)
            && request.keepAlive == KeepAliveAfter(pairs)
            && conn.pos == BodyOf(conn.input, HeaderSection(conn.input, old(conn.pos)).1, ContentLengthIn(KvOf(pairs))).1
            && (ContentLengthIn(KvOf(pairs)).Ok? ==>
                  request.body == BodyOf(conn.input, HeaderSection(conn.input, old(conn.pos)).1, ContentLengthIn(KvOf(pairs))).0)
            && (ContentLengthIn(KvOf(pairs)).Err? ==> request.body == old(request.body))
  {
    ReadHeaders(conn, request);
    ReadBody(conn, request);
  }

  /** A zero-length first read: the peer has closed the connection. */
  lemma ParsePeerClosed(input: seq<byte>, p: nat)
    requires p <= |input| && LineEnd(input, p) == p
    ensures ParseRequest(input, p) == PeerClosed
  {
  }

  /** A request line that does not split into three tokens. */
  lemma ParseBadLine(input: seq<byte>, p: nat, e: nat)
    requires p <= |input| && LineEnd(input, p) == e && e != p
    requires ParseRequestLine(LineText(input[p..e])).None?
    ensures ParseRequest(input, p) == BadRequestLine(e)
  {
  }

  /** A request line of three tokens: the rest of the request follows from the end of that line. */
  lemma ParseGoodLine(input: seq<byte>, p: nat, e: nat)
    requires p <= |input| && LineEnd(input, p) == e && e != p
    requires ParseRequestLine(LineText(input[p..e])).Some?
    ensures var r := ParseRequest(input, p);
            var pairs := Accepted(HeaderSection(input, e).0);
            && r.Parsed?
            && r.headers == pairs
            && r.next == BodyOf(input, HeaderSection(input, e).1, ContentLengthIn(KvOf(pairs))).1
  {
  }

  /**
   * One request on the connection. The peer closing gives `false` and no
   * response; a request line that is not three tokens gets `400` with
   * `Connection: close` and `false`; otherwise the header section and the
   * body are read, and a `204` carrying the request's `Host` is sent with
   * the request's keep-alive flag, which is returned.
   */
  method HandleConnection(conn: Connection) returns (outcome: Outcome, ghost emitted: seq<(string, string)>)
    requires conn.Valid()
    modifies conn
    ensures conn.Valid()
    ensures match ParseRequest(conn.input, old(conn.pos))
      case PeerClosed =>
        && outcome == Done(false)
        && conn.pos == old(conn.pos) && conn.output == old(conn.output)
      case BadRequestLine(next) =>
        && outcome == Done(false) && conn.pos == next
        && Enumerates(emitted, WithServerHeaders(map[], false, 0))
        && conn.output == old(conn.output) + ResponseText(BadRequest, emitted, "")
      case Parsed(_, _, _, pairs, _, next) =>
        && conn.pos == next
        && RespondedTo(KvOf(pairs), KeepAliveAfter(pairs), outcome, emitted, old(conn.output), conn.output)
  {
    emitted := [];
    ghost var p := conn.pos;
    var requestLine := conn.ReadUntilNewline();
    if |requestLine| == 0 {
      ParsePeerClosed(conn.input, p);
      return Done(false), emitted;
    }
    var parsed := ParseRequestLine(LineText(requestLine));
    if parsed.None? {
      ParseBadLine(conn.input, p, conn.pos);
      var empty := new Headers();
      emitted := SendResponse(conn, BadRequest, empty, false, "");
      return Done(false), emitted;
    }
    ParseGoodLine(conn.input, p, conn.pos);
    var (httpMethod, path, version) := parsed.value;
    var request := new Request(httpMethod, path, version);
    outcome, emitted := AnswerRequest(conn, request);
  }

  /**
   * The quirk of the `204` response: it carries both the request's
   * `Content-type: application/json` and `send_response`'s own
   * `Content-Type: text/html; charset=utf-8`, since written-out names are
   * kept exactly as given; five header lines in all.
   */
  lemma NoContentCarriesTwoContentTypes(host: string, keepAlive: bool)
    ensures var m := WithServerHeaders(NoContentHeaders(host), keepAlive, 0);
            && m.Keys == {"Content-type", "Host", CONTENT_LENGTH_HEADER, CONTENT_TYPE_HEADER, CONNECTION_HEADER}
            && |m.Keys| == 5
            && m["Content-type"] == "application/json"
            && m[CONTENT_TYPE_HEADER] == DEFAULT_CONTENT_TYPE
            && m[CONTENT_LENGTH_HEADER] == "0"
  {
  }
}
