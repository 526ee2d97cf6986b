/** Writing a response (`send_response`). */
module Response {
  import opened Wrappers
  import opened Status
  import opened HeaderTable
  import opened Stream
  import opened Decimal
  import opened Ascii
  import opened Text

  const CONTENT_TYPE_HEADER := "Content-Type"
  const DEFAULT_CONTENT_TYPE := "text/html; charset=utf-8"

  /** The value of the `Connection` header for a keep-alive flag. */
  function ConnectionValue(keepAlive: bool): (v: string)
    ensures v == "keep-alive" || v == "close"
    ensures v == "close" <==> !keepAlive
  {
    if keepAlive then "keep-alive" else "close"
  }

  /**
   * The written-out map once the three server headers have been added:
   * they replace whatever the caller put under those exact names and leave
   * every other entry alone.
   */
  function WithServerHeaders(raw: map<string, string>, keepAlive: bool, bodyLength: nat): (r: map<string, string>)
    ensures r.Keys == raw.Keys + {CONTENT_LENGTH_HEADER, CONTENT_TYPE_HEADER, CONNECTION_HEADER}
    ensures r[CONTENT_LENGTH_HEADER] == ToDecimal(bodyLength)
    ensures r[CONTENT_TYPE_HEADER] == DEFAULT_CONTENT_TYPE
    ensures r[CONNECTION_HEADER] == ConnectionValue(keepAlive)
    ensures forall k :: k in raw && k != CONTENT_LENGTH_HEADER && k != CONTENT_TYPE_HEADER && k != CONNECTION_HEADER ==> r[k] == raw[k]
  {
    raw[CONTENT_LENGTH_HEADER := ToDecimal(bodyLength)]
       [CONTENT_TYPE_HEADER := DEFAULT_CONTENT_TYPE]
       [CONNECTION_HEADER := ConnectionValue(keepAlive)]
  }

  /** One header as written: `name: value` and a CRLF. */
  function HeaderLine(entry: (string, string)): string {
    entry.0 + ": " + entry.1 + CRLF
  }

  /** The header lines of `entries`, in that order. */
  function HeaderBlock(entries: seq<(string, string)>): string {
    if entries == [] then ""
    else HeaderBlock(entries[..|entries| - 1]) + HeaderLine(entries[|entries| - 1])
  }

  /** `entries` lists every entry of `m` exactly once, in some order. */
  predicate Enumerates(entries: seq<(string, string)>, m: map<string, string>) {
    && (forall i :: 0 <= i < |entries| ==> entries[i].0 in m && m[entries[i].0] == entries[i].1)
    && (forall k :: k in m ==> exists i :: 0 <= i < |entries| && entries[i].0 == k)
    && (forall i, j :: 0 <= i < j < |entries| ==> entries[i].0 != entries[j].0)
  }

  /** The whole response: status line, the header lines in the order given, a blank line, and the body when there is one. */
  function ResponseText(status: HttpCode, entries: seq<(string, string)>, body: string): string {
    "HTTP/1.1 " + status.AsStr() + CRLF + HeaderBlock(entries) + CRLF + (if |body| > 0 then body else "")
  }

  /**
   * `send_response`: sets the three server headers on `headers`, then
   * writes the status line, one line per written-out entry in whatever order
   * the table yields them (returned as `emitted`), a blank line and the body.
   */
  method SendResponse(conn: Connection, status: HttpCode, headers: Headers, keepAlive: bool, body: string)
    returns (ghost emitted: seq<(string, string)>)
    requires conn.Valid() && headers.Valid()
    modifies conn, headers
    ensures conn.Valid() && conn.pos == old(conn.pos)
    ensures headers.Valid()
    ensures headers.raw == WithServerHeaders(old(headers.raw), keepAlive, |body|)
    ensures headers.kv == old(headers.kv)[LowerStr(CONTENT_LENGTH_HEADER) := ToDecimal(|body|)]
                                         [LowerStr(CONTENT_TYPE_HEADER) := DEFAULT_CONTENT_TYPE]
                                         [LowerStr(CONNECTION_HEADER) := ConnectionValue(keepAlive)]
    ensures Enumerates(emitted, headers.raw)
    ensures conn.output == old(conn.output) + ResponseText(status, emitted, body)
  {
    headers.Add(CONTENT_LENGTH_HEADER, ToDecimal(|body|));
    headers.Add(CONTENT_TYPE_HEADER, DEFAULT_CONTENT_TYPE);
    headers.Add(CONNECTION_HEADER, if keepAlive then "keep-alive" else "close");

    ghost var out0 := conn.output;
    var statusLine := "HTTP/1.1 " + status.AsStr() + CRLF;
    conn.WriteAll(statusLine);
    emitted := WriteHeaderLines(conn, headers);
    conn.WriteAll(CRLF);
    var tail := if |body| > 0 then body else "";
    if |body| > 0 {
      conn.WriteAll(body);
    }
    assert conn.output == out0 + statusLine + HeaderBlock(emitted) + CRLF + tail;
    AppendFour(out0, statusLine, HeaderBlock(emitted), CRLF, tail);
    assert ResponseText(status, emitted, body) == statusLine + HeaderBlock(emitted) + CRLF + tail;
  }

  /**
   * Regrouping a concatenation. Kept as a lemma so that the step is checked
   * apart from `SendResponse`'s heap, where the same step as an inline
   * assertion is too costly for the solver.
   */
  lemma AppendFour(s: string, a: string, b: string, c: string, d: string)
    ensures s + a + b + c + d == s + (a + b + c + d)
  {
  }

  /** The `for (key, value) in headers.iter()` loop of `send_response`: one line per written-out entry, each exactly once. */
  method WriteHeaderLines(conn: Connection, headers: Headers) returns (ghost emitted: seq<(string, string)>)
    requires conn.Valid()
    modifies conn
    ensures conn.Valid() && conn.pos == old(conn.pos)
    ensures Enumerates(emitted, headers.raw)
    ensures conn.output == old(conn.output) + HeaderBlock(emitted)
  {
    ghost var all := headers.Iter();
    var entries := headers.Iter();
    emitted := [];
    while entries != {}
      invariant conn.Valid() && conn.pos == old(conn.pos)
      invariant entries + Elements(emitted) == all
      invariant entries !! Elements(emitted)
      invariant Distinct(emitted)
      invariant conn.output == old(conn.output) + HeaderBlock(emitted)
      decreases entries
    {
      var entry :| entry in entries;
      conn.WriteAll(HeaderLine(entry));
      EmitOneMore(emitted, entry);
      emitted := emitted + [entry];
      entries := entries - {entry};
    }
    ItemsEnumerated(emitted, headers.raw);
  }

  predicate Distinct<T(==)>(s: seq<T>) {
    forall i, j :: 0 <= i < j < |s| ==> s[i] != s[j]
  }

  function Elements<T>(s: seq<T>): set<T> {
    set x | x in s
  }

  /** Writing one more entry that has not been written yet. */
  lemma EmitOneMore(emitted: seq<(string, string)>, entry: (string, string))
    requires Distinct(emitted) && entry !in Elements(emitted)
    ensures Distinct(emitted + [entry])
    ensures Elements(emitted + [entry]) == Elements(emitted) + {entry}
    ensures HeaderBlock(emitted + [entry]) == HeaderBlock(emitted) + HeaderLine(entry)
  {
    assert (emitted + [entry])[..|emitted|] == emitted;
  }

  /** Every entry of a map listed once, with no repeats, enumerates the map. */
  lemma ItemsEnumerated(emitted: seq<(string, string)>, m: map<string, string>)
    requires Distinct(emitted) && Elements(emitted) == m.Items
    ensures Enumerates(emitted, m)
  {
    forall i | 0 <= i < |emitted|
      ensures emitted[i].0 in m && m[emitted[i].0] == emitted[i].1
    {
      assert emitted[i] in m.Items;
    }
    forall k | k in m
      ensures exists i :: 0 <= i < |emitted| && emitted[i].0 == k
    {
      assert (k, m[k]) in m.Items;
      var i :| 0 <= i < |emitted| && emitted[i] == (k, m[k]);
    }
    forall i, j | 0 <= i < j < |emitted|
      ensures emitted[i].0 != emitted[j].0
    {
      assert emitted[i] in m.Items && emitted[j] in m.Items;
    }
  }

  /** The header block read from the front: the first entry's line, then the rest. */
  lemma {:induction false} HeaderBlockCons(e: (string, string), rest: seq<(string, string)>)
    ensures HeaderBlock([e] + rest) == HeaderLine(e) + HeaderBlock(rest)
    decreases |rest|
  {
    if rest != [] {
      var init := rest[..|rest| - 1];
      HeaderBlockCons(e, init);
      assert ([e] + rest)[..|rest|] == [e] + init;
    } else {
      assert [e] + rest == [e];
      assert [e][..0] == [];
    }
  }

  /** The `Content-Length` a response announces parses back to the body's length. */
  lemma ContentLengthRoundTrip(raw: map<string, string>, keepAlive: bool, body: string)
    requires |body| <= USIZE_MAX
    ensures ParseUsize(WithServerHeaders(raw, keepAlive, |body|)[CONTENT_LENGTH_HEADER]) == Some(|body|)
  {
    ParseToDecimal(|body|);
  }
}
