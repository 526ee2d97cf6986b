# simple-http-rs, modelled in Dafny

This project models the request/response engine of `simple-http-rs`, a small
HTTP/1.1 server whose whole program is `src/main.rs`. The model covers four
parts of that file:

- **`HTTPCodes::as_str`** (`Status`): the fixed status text of each of the
  three codes.
- **`Headers`** (`HeaderTable`): a class with two maps, as in the source.
  `kv` is keyed by the ASCII-lower-cased name and serves lookups. `raw` is
  keyed by the name as given and serves writing out.
  `get_content_length` distinguishes an absent length from an unparsable
  one. Parsing follows `str::parse::<usize>` on a 64-bit target (`Decimal`).
- **`handle_connection`** (`Server`, with the pure reading of the wire in
  `RequestParser`).
  - The connection is a byte sequence with a read cursor and an output
    string (`Stream.Connection`). `read_until(b'\n')` and `read` are methods
    on it.
  - The request line must split on `" "` into exactly three tokens.
  - Header lines are read until a chunk of at most two bytes. A line that
    does not split on `": "` into exactly two parts is skipped.
  - `keep_alive` is cleared only by the exact pair `Connection: close`.
  - The body is a zeroed buffer of the declared length, filled by one
    `read`.
  - The `204` answer carries `Content-type: application/json` and the
    request's `Host`.
- **`send_response`** (`Response`): overwrites three headers, then writes:
  - the status line;
  - one `name: value` line per written-out entry, in whatever order the
    table yields them;
  - a blank line;
  - the body, when it is not empty.

The imperative parts stay imperative:
- `Headers.Add` updates the two map fields.
- The header loop is a `while` loop over the connection.
- `send_response` iterates over the table's entries.
- The body is read into an `array`.

Each method is proved against pure functions of the bytes the peer sends:
- `LineEnd` for `read_until`;
- `HeaderSection`, `Accepted`, `KvOf`, `RawOf` and `KeepAliveAfter` for the header loop;
- `BodyOf` for the body;
- `ParseRequest` for a whole request;
- `ResponseText` for what `send_response` writes.

The properties are proved as lemmas about those functions:
- the last-write-wins laws of both maps;
- the keep-alive flag being cleared exactly by `Connection: close`, and for good;
- malformed lines having no effect;
- the round trip of request lines and header lines.

The largest of these is `HeaderTableRoundTrip`. Take the written-out map
of a header table, as `send_response` leaves it once it has set
`Content-Length`, `Content-Type` and `Connection`, and suppose no name or
value in it holds a line feed or `": "`. Written out in any iteration order
and read back by the header loop, that map comes back name for exact name.
The condition is needed: a value holding `": "` makes its line split into
more than two parts, so the line is dropped (`ValueWithSeparatorDropped`).
Only the written-out map is guaranteed to come back. The lookup map is
rebuilt in the order the lines were written. For names that differ only in
case, such as the `Content-type` and `Content-Type` of the `204` response,
`get` can then return the other value (`AddOrderDecidesLookup`).

Three behaviours of the code are easy to misread, and the model keeps them.
A fourth point is about naming:
- The serialisation map does **not** collapse names that differ only in
  case, so the `204` response carries both `Content-type` and
  `Content-Type` (`CaseVariantsCollapse`, `NoContentCarriesTwoContentTypes`).
- The `Connection: close` check is on the exact name and value
  (`ConnectionCheckIsExact`), not case-insensitive.
- The body is read with a single `read` into a zeroed buffer of the
  declared length. A short read leaves zeros at the end of the buffer; it
  is not a fault (`BodyOf`, `ParsedBody`).
- The two `get_content_length` errors are named the other way round from
  what their messages suggest. An absent `Content-Length` is a
  `ParsingError`, and an unparsable one is a `MissingHeader`. The model
  keeps the source's naming; the caller ignores the difference.

## Model

| member | source | states |
|---|---|---|
| Status.HttpCode.AsStr | src/main.rs:36-44 | OK, NoContent and BadRequest give "200 OK", "204 No content" and "400 Bad Request" |
| Status.StatusTextShape | src/main.rs:37-43 | distinct codes have distinct texts, each a three-digit code followed by a space |
| Ascii.Decode | src/main.rs:135 | the text of a chunk has one character per byte, with the same code |
| Ascii.DecodeSlice | src/main.rs:180 | decoding a slice is slicing the decoded text |
| Ascii.LowerStr | src/main.rs:78 | the lookup key keeps the length and folds 'A'..'Z' to lower case, character by character |
| Ascii.LowerStrIdempotent | src/main.rs:83 | a lower-cased key folds to itself |
| Decimal.ToDecimal | src/main.rs:233 | `to_string` writes at least one digit, with no leading zero |
| Decimal.ParseUsize | src/main.rs:91 | accepted exactly for an optional '+', then one or more digits whose value fits in 64 bits; the result is that value |
| Decimal.ToDecimalValue | src/main.rs:233 | the digits `to_string` writes denote the number |
| Decimal.ParseToDecimal | src/main.rs:91 | a `usize` written by `to_string` parses back to itself |
| Decimal.CanonicalDigits | src/main.rs:91 | digits without a leading zero are what `to_string` writes for their value |
| Decimal.ParsedIsCanonicalUpToZeros | src/main.rs:91 | a parsed length's text differs from `to_string`'s only by a '+' and leading zeros |
| Text.IndexOf | src/main.rs:182 | the first occurrence of the separator at or after a position, or none |
| Text.Split | src/main.rs:137 | `split` yields at least one piece |
| Text.SplitStep | src/main.rs:182 | the first piece ends at the first separator, and the rest is split again |
| Text.SplitThenJoin | src/main.rs:137 | joining the pieces of a split with the separator gives the line back |
| Text.SplitPartsFree | src/main.rs:182 | no piece of a split contains the separator |
| Text.FirstSeparator | src/main.rs:182 | in `a + ": " + b` with no ": " in `a`, the first separator is right after `a` |
| Text.JoinThenSplit | src/main.rs:182 | separator-free pieces, joined and split again, come back unchanged |
| Text.SplitCount | src/main.rs:137-138 | splitting on one character gives one more piece than it occurs |
| Text.TrimEndMatches | src/main.rs:136 | the result is a prefix that no longer ends with the pattern, and is the input when the input did not end with it |
| Text.TrimOneTerminator | src/main.rs:181 | a line without its own line feed loses exactly one CRLF |
| HeaderTable.LookupIn | src/main.rs:82-87 | found exactly when the lower-cased key is in the lookup map, with its value |
| HeaderTable.ContentLengthIn | src/main.rs:89-101 | absent gives ParsingError, unparsable gives MissingHeader, otherwise Ok of the parsed value |
| HeaderTable.Headers.constructor | src/main.rs:70-75 | both maps empty |
| HeaderTable.Headers.Add | src/main.rs:77-80 | the folded key and the exact key get the value, nothing else changes, and the lookup map stays tied to the written-out map |
| HeaderTable.Headers.Get | src/main.rs:82-87 | a value is found exactly when some added name folds like the key, and it is that name's value |
| HeaderTable.Headers.GetContentLength | src/main.rs:89-101 | the three outcomes of `ContentLengthIn`; ParsingError exactly when `get` finds nothing |
| HeaderTable.Headers.Iter | src/main.rs:103-105 | the entries are exactly the written-out name/value pairs |
| HeaderTable.KvOf | src/main.rs:78 | defines the lookup map after `add` of each pair in turn; `KvOfLastWins` states its content |
| HeaderTable.RawOf | src/main.rs:79 | defines the written-out map after `add` of each pair in turn; `RawOfLastWins` states its content |
| HeaderTable.LookupAfterAdd | src/main.rs:77-87 | after `add(k, v)`, `get` of any name folding like `k` is `v`, and every other name is unchanged |
| HeaderTable.RawOfLastWins | src/main.rs:79 | a written-out name is present iff it was added, with its last value |
| HeaderTable.KvOfLastWins | src/main.rs:78 | a lookup key is present iff some added name folds to it, with the value of the last such add |
| HeaderTable.AddOrderDecidesLookup | src/main.rs:77-87 | two names differing only in case, added in either order, give the same written-out map but `get` finds the value added last |
| HeaderTable.CaseVariantsCollapse | src/main.rs:77-80 | two names differing only in case share one lookup entry but are written out separately |
| Stream.LineEnd | src/main.rs:175 | `read_until` stops just past a line feed or at the end of input, and reads nothing only at the end |
| Stream.Connection.constructor | src/main.rs:18 | nothing consumed or written yet |
| Stream.Connection.ReadUntilNewline | src/main.rs:175 | returns the bytes up to `LineEnd` and moves the cursor there |
| Stream.Connection.Read | src/main.rs:200 | fills the front of the buffer with as many next bytes as fit and are there, keeping the rest of the buffer |
| Stream.Connection.WriteAll | src/main.rs:244-246 | appends exactly the text to the output |
| Response.ConnectionValue | src/main.rs:238-241 | "close" exactly when keep-alive is off, else "keep-alive" |
| Response.WithServerHeaders | src/main.rs:233-241 | the three server headers replace the caller's under those exact names; every other entry is kept |
| Response.SendResponse | src/main.rs:225-270 | the table gains the three headers; the output is the status line, one line per written-out entry each once, a blank line and the body when non-empty |
| Response.WriteHeaderLines | src/main.rs:248-259 | writes one `name: value` line per entry of the table, each exactly once, in the order returned |
| Response.EmitOneMore | src/main.rs:248-250 | writing an entry not yet written keeps the written list free of repeats |
| Response.ItemsEnumerated | src/main.rs:248 | a repeat-free list of exactly the map's entries lists every entry once |
| Response.HeaderBlockCons | src/main.rs:248-259 | the header lines read from the front: the first entry's line, then the rest |
| Response.HeaderLine | src/main.rs:250 | defines one written header as `name: value` followed by CRLF; `HeaderLineText` and `ReadHeaderLine` show that the header loop reads it back as the same pair |
| Response.Enumerates | src/main.rs:248 | defines the `headers.iter()` order: the list names every entry of the map exactly once, with its value, in some order; `ItemsEnumerated` and `RawOfEnumeration` state its use |
| Response.HeaderBlock | src/main.rs:248-259 | defines the header lines of a list of entries, in list order; `HeaderBlockCons` reads it from the front and `HeaderBlockReparses` reads it back |
| Response.ResponseText | src/main.rs:243-263 | defines the whole response as the status line, the header block, a blank line and the body when it is non-empty; `SendResponse` writes exactly this |
| Response.ContentLengthRoundTrip | src/main.rs:233 | the announced Content-Length parses back to the body's length |
| RequestParser.LineText | src/main.rs:180-181 | defines the text of a chunk as its decoding with trailing CRLFs removed; `HeaderLineText` gives its value for a written header line |
| RequestParser.ParseRequestLine | src/main.rs:137-138 | accepted iff the line holds exactly two spaces; then the three space-free tokens joined by spaces are the line |
| RequestParser.ThreeTokens | src/main.rs:149-152 | the three parts of a three-way split rebuild the line and hold no space |
| RequestParser.RequestLineRoundTrip | src/main.rs:137-152 | three space-free tokens joined by spaces parse as method, path and version |
| RequestParser.ParseHeaderLine | src/main.rs:182-187 | an accepted line is `name: value`, with no ": " in either part |
| RequestParser.HeaderLineRoundTrip | src/main.rs:182-187 | `name: value` with no ": " in either part is accepted as that pair |
| RequestParser.ValueWithSeparatorDropped | src/main.rs:182-185 | a value holding ": " makes the whole line be dropped |
| RequestParser.Accepted | src/main.rs:182-189 | defines the pairs of the lines that split on ": " into exactly two parts, in order; `AcceptedAppend`, `MalformedLineSkipped` and `AcceptedCons` state its laws |
| RequestParser.KeepAliveAfter | src/main.rs:190-192 | defines the flag after the accepted pairs; `KeepAliveIff` states it is set iff no pair is exactly `Connection: close` |
| RequestParser.HeaderSection | src/main.rs:173-178 | the header loop ends within the input, at or after where it started |
| RequestParser.Zeros | src/main.rs:199 | `vec![0; length]`: exactly `length` bytes, each zero |
| RequestParser.BodyOf | src/main.rs:198-202 | with a declared length L: L bytes, the front filled from the input as far as it goes, the rest zero; otherwise no body and nothing read |
| RequestParser.ParseRequest | src/main.rs:124-202 | peer closed exactly at end of input; otherwise at least the request line is consumed |
| RequestParser.CollectAppend | src/main.rs:173-193 | collecting the pairs of lines distributes over concatenation |
| RequestParser.CollectOne | src/main.rs:183-189 | one line contributes its pair or nothing |
| RequestParser.AcceptedAppend | src/main.rs:173-193 | the accepted pairs of two runs of lines are the pairs of each, in order |
| RequestParser.MalformedLineSkipped | src/main.rs:183-185 | a line that does not split into two parts changes nothing about the lines around it |
| RequestParser.KeepAliveIff | src/main.rs:190-192 | the flag stays set iff no accepted pair is exactly `Connection: close` |
| RequestParser.CloseIsFinal | src/main.rs:190-192 | once cleared, the flag stays cleared whatever headers follow |
| RequestParser.ConnectionCheckIsExact | src/main.rs:190 | `connection: close` and `Connection: Close` keep the connection open; `Connection: close` does not |
| RequestParser.ParsedBody | src/main.rs:198-202 | the body has exactly the declared length, its front the bytes after the header section; otherwise it is empty |
| RequestParser.EveryTransmissible | src/main.rs:248-250 | a list of writable entries is writable entry by entry |
| RequestParser.LineEndAt | src/main.rs:175 | `read_until` stops at the first line feed |
| RequestParser.SpellsDecode | src/main.rs:180 | bytes spell a text exactly when they decode to it |
| RequestParser.SpellsSplit | src/main.rs:175 | bytes spelling `a + b` spell `a`, then `b` |
| RequestParser.ReadHeaderLine | src/main.rs:175-187 | a written header line is read as one chunk of more than two bytes that parses as the same pair |
| RequestParser.HeaderLineEnd | src/main.rs:175-176 | `read_until` returns exactly the written header line |
| RequestParser.HeaderLineText | src/main.rs:180-181 | the written header line, trimmed, is `name: value` again |
| RequestParser.LineThenRest | src/main.rs:173-193 | a written header line contributes its pair ahead of the rest of the section |
| RequestParser.HeaderBlockReparses | src/main.rs:173-193 | header lines as written, then a blank line, are accepted as exactly the written pairs, in order, and the section ends after the blank line |
| RequestParser.BlockSplit | src/main.rs:248-260 | a non-empty header block is its first line followed by the rest |
| RequestParser.EmptyBlockReparses | src/main.rs:176-178 | a lone blank line is an empty section |
| RequestParser.BlankLineEndsSection | src/main.rs:176-178 | the blank line ends the section and adds no line |
| RequestParser.AcceptOneMore | src/main.rs:173-189 | a line accepted as a pair puts that pair in front of the rest of the section |
| RequestParser.HeaderSectionStep | src/main.rs:173-181 | one pass of the loop over a line longer than two bytes |
| RequestParser.AcceptedCons | src/main.rs:183-189 | a line that parses contributes its pair first |
| RequestParser.RawOfEnumeration | src/main.rs:248 | adding the entries of a map, each once and in any order, rebuilds the map |
| RequestParser.HeaderTableRoundTrip | src/main.rs:248-260 | a written-out map (the one `send_response` holds after setting its three headers) whose names and values hold no line feed and no ": ", written out in any order and read back by the header loop, comes back as the same written-out map, name for exact name; the lookup map is not promised |
| Server.Request.constructor | src/main.rs:149-156 | the three tokens, an empty table, no body, keep-alive set |
| Server.NoContentHeaders | src/main.rs:205-210 | the 204 table holds exactly `Content-type: application/json` and `Host` |
| Server.AcceptedSnoc | src/main.rs:183-189 | one more line is skipped or appends its pair |
| Server.PairsSnoc | src/main.rs:189-192 | one more pair updates both maps and the flag as one pass of the loop does |
| Server.SectionEnds | src/main.rs:176-178 | a chunk of at most two bytes completes the section |
| Server.SectionContinues | src/main.rs:175-181 | a longer chunk joins the lines read so far |
| Server.LineStep | src/main.rs:180-192 | the table and the flag after one more line, in terms of those before it |
| Server.ReadHeaderLineInto | src/main.rs:174-192 | one pass: stops on a chunk of at most two bytes; otherwise adds the line's pair when it parses, clearing the flag on an exact `Connection: close` |
| Server.ReadHeaders | src/main.rs:173-193 | leaves the cursor at the end of the header section; the table and the flag are those of the accepted pairs |
| Server.ReadBody | src/main.rs:198-202 | with a usable length the body is `BodyOf`'s; otherwise unchanged; the cursor moves past what was read |
| Server.RespondedTo | src/main.rs:205-222 | defines what answering a request means: without `Host`, the panic outcome and nothing written; with it, one 204 response carrying that host and the flag, and the flag as the answer |
| Server.SendNoContent | src/main.rs:205-219 | without `Host` nothing is written (the panic); otherwise one 204 response with that host and the request's flag |
| Server.NoContentTable | src/main.rs:205-210 | `Content-type` first, then the `Host` found case-insensitively, if any |
| Server.ReadHeadersAndBody | src/main.rs:173-202 | after the header loop and the body read, `kv`, `raw` and the flag are those of the accepted pairs, the cursor is past the body, and with a usable Content-Length the body is `BodyOf` the bytes after the header section, otherwise it is unchanged |
| Server.AnswerRequest | src/main.rs:173-222 | reads exactly the header section and the body, leaving the request's `kv`, `raw`, flag and body as the accepted pairs and `BodyOf` give them, then answers as `SendNoContent` |
| Server.Answered | src/main.rs:209-222 | the two cases of the answer, combined |
| Server.ParsePeerClosed | src/main.rs:132-134 | an empty first read is the peer closing |
| Server.ParseBadLine | src/main.rs:138-148 | a request line that is not three tokens is refused after that line |
| Server.ParseGoodLine | src/main.rs:149-156 | after a good request line, the headers and the body follow from its end |
| Server.HandleConnection | src/main.rs:124-223 | peer closed: false, nothing written; bad request line: one 400 with `Connection: close`, false; otherwise it consumes the request and answers 204 with the request's flag, which it returns |
| Server.NoContentCarriesTwoContentTypes | src/main.rs:206 | the 204 response has five headers, both `Content-type` and `Content-Type`, and `Content-Length: 0` |

## Left out

- The `main` accept loop, tokio task spawning and the `readable`/`writable` polling (src/main.rs:8-28) are I/O and concurrency. The model handles one request on one connection.
- `BufStream` buffering and `flush`: a write is an append to the connection's output.
- Timing with `Instant` and logging with `println!` have no protocol meaning.
- The serde `Test` struct, the `Debug` impl of `Headers` and the unused `HTTPError::Unknown` are not modelled.
- Server.HandleConnection: reads never fail in the model, so the `Err` branch of the request-line read (src/main.rs:158-168) is not modelled. Neither are the panics of `unwrap`/`expect` on failed reads and writes.
- Ascii.Decode: decodes one character per byte, so the UTF-8 check of `String::from_utf8(..).unwrap()` and the decoding of multi-byte characters are not modelled; the two agree on ASCII traffic.
- Ascii.LowerStr: folds only 'A'..'Z', while Rust's `to_lowercase` is Unicode-aware.
- Response.SendResponse: `Content-Length` is the body's length in characters, which is its byte length only for ASCII bodies.
- Stream.Connection.Read: a `read` returns fewer bytes than fit only at the end of the input; a short read with more data still to come is not modelled.
- Server.ReadBody: allocation failure for a huge `Content-Length` is not modelled.
- Decimal.ParseUsize: `usize` is taken to be 64 bits wide.
- Response.WriteHeaderLines: `HashMap` iteration order is left open. The order is an existential choice, returned as a ghost list that enumerates the table.
