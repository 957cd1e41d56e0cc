# cc-redis request handler, modelled in Dafny

The server is an early Redis clone. Each connection task reads a chunk of
bytes, decodes it as UTF-8, trims it, and cuts it into tokens. It then
dispatches on token 2, the command name, and writes back the reply:

- `ping` in any ASCII case gets the simple string `+PONG\r\n`;
- `echo` gets a bulk string `$<len>\r\n<arg>\r\n` built from token 4, where
  `<len>` is the argument's length in UTF-8 bytes;
- any other name panics, and so does a token index past the end.

The tokeniser splits on the four characters backslash, `r`, backslash, `n`,
because that is what the Rust literal `"\\r\\n"` denotes. It does not split on
the control characters CR LF. `Server.Handle` models this exactly as written.
The consequence is recorded under "## Findings".

The model is pure: functions for every step, and lemmas for what they promise.

- `Split`: `Split`/`Join` over any sequence type, with the semantics of Rust's
  `str::split` for a non-empty pattern (leftmost match, search resumes after
  it). Both inverse directions are proved. Splitting then joining gives the
  input back. Joining then splitting gives the pieces back, for a separator
  none of whose proper suffixes is also a prefix ("unbordered") and pieces that
  do not contain it.
- `Text`: Rust's `trim`, using the full Unicode White_Space set that
  `char::is_whitespace` uses; `to_ascii_lowercase`; decimal rendering of
  lengths.
- `Utf8`: the byte encoding behind `str::len` and `str::as_bytes`, plus the
  validating decoder that `std::str::from_utf8` is. It proves that decoding an
  encoding gives the string back, and that the decoder accepts only canonical
  encodings.
- `Server`: `Tokenize`, `Parse` (the `parser` function), `Handle` (their
  composition) and `Respond`. `Respond` covers one pass of a connection's loop:
  a read of no bytes ends the loop, otherwise the bytes are decoded and
  answered, and they may panic.
- `Resp`: the client's view of the wire format. It reads simple-string and
  bulk-string replies, and lays out a request as an array of bulk strings.
  This is the independent reference that the reply builder's round trips are
  proved against.
- `Framing`: how the handler treats requests that are framed with real CR LF,
  as written and with the separator corrected.

Panics are values of `Server.Panic`: `InvalidUtf8`, `IndexOutOfBounds(index,
len)` (Rust's indexing panic) and `UnrecognizedCommand`.

## Model

| member | source | states |
|---|---|---|
| `Server.Tokenize` | src/main.rs:49 | there is always at least one token; the tokens joined with the four-character separator give back the trimmed request; no token contains the separator |
| `Server.SeparatorUnbordered` | src/main.rs:49 | the separator is four characters long and no proper suffix of it is a prefix of it, so its occurrences never overlap |
| `Text.Trim` | src/main.rs:49 | the trimmed text neither begins nor ends with whitespace |
| `Text.TrimStart` | src/main.rs:49 | the result is a suffix of the input; everything removed is whitespace; the result is empty or starts with non-whitespace |
| `Text.TrimEnd` | src/main.rs:49 | the result is a prefix of the input; everything removed is whitespace; the result is empty or ends with non-whitespace |
| `Text.TrimSplits` | src/main.rs:49 | the input is the trimmed text with a run of whitespace before it and a run after it |
| `Text.TrimSurrounded` | src/main.rs:49 | the trimmed text is determined uniquely: a non-whitespace-ended core with any whitespace around it trims to that core |
| `Text.TrimIdempotent` | src/main.rs:49 | trimming twice is trimming once |
| `Split.IndexFrom` | src/main.rs:49 | the search finds the leftmost occurrence of the separator at or after the start position, or reports that there is none |
| `Split.Split` | src/main.rs:49 | a split always yields at least one piece, even for empty input |
| `Split.JoinSplit` | src/main.rs:49 | joining the pieces of a split with the separator gives back the input |
| `Split.SplitPiecesFree` | src/main.rs:49 | no piece of a split contains the separator |
| `Split.SplitJoin` | src/main.rs:49 | for an unbordered separator, splitting a join of separator-free pieces gives back exactly those pieces |
| `Text.AsciiLowerMatches` | src/main.rs:12 | a string lowercases to a lower-case word exactly when it has the same length and each character is that letter in either case (so `PING`, `Ping`, `ping` all match) |
| `Server.Parse` | src/main.rs:11-21 | a reply is produced only when there are at least three tokens; it is `+PONG\r\n` when token 2 lowercases to `ping`, and the echo reply of token 4 when token 2 lowercases to `echo` and there are at least five tokens; `parser` never fails with a UTF-8 error |
| `Server.Handle` | src/main.rs:49-51 | every reply to a request text is `+PONG\r\n` or the echo reply of its token 4; it never fails with a UTF-8 error; a request whose trimmed text holds no four-character separator panics at index 2 of one token (with `HandleJoined`, a trimmed join of separator-free pieces is answered as `Parse` answers the pieces) |
| `Text.AsciiLower` | src/main.rs:12 | the result has the input's length and no ASCII capital; each character is kept, or is an ASCII capital turned into its lower-case letter |
| `Server.PingAnswersPong` | src/main.rs:12-15 | when token 2 lowercases to `ping`, the reply is exactly `+PONG\r\n`, whatever the other tokens are |
| `Server.ParseFailures` | src/main.rs:11-20 | fewer than 3 tokens panics at index 2; `echo` with fewer than 5 tokens panics at index 4; any other command name panics as unrecognized |
| `Server.ParseDependsOnCommandAndArgument` | src/main.rs:11-20 | two token lists with the same lower-cased command and the same echo argument (and the same token count when below 5, or both at least 5) get the same outcome, so the case of the command, token 0, token 1 and the client's declared length in token 3 have no effect |
| `Server.EchoReply` | src/main.rs:17 | the echo reply's bytes are `$`, the argument's UTF-8 length in decimal, CR LF, the argument's bytes, CR LF; a client reading them as a bulk string gets the argument's bytes back |
| `Server.EchoRoundTrip` | src/main.rs:16-17 | reading the echo reply as a bulk string gives back the bytes of token 4, and decoding those gives token 4; the declared length equals the payload length |
| `Server.PongIsSimpleString` | src/main.rs:14 | the PONG reply reads back as the simple string `PONG` |
| `Server.HandleJoined` | src/main.rs:49-51 | a trimmed text made of separator-free pieces is tokenised into exactly those pieces, and answered as `Parse` answers them |
| `Server.Respond` | src/main.rs:37-53 | the loop ends exactly when the read returned no bytes; otherwise it panics with the UTF-8 error exactly when the bytes are not valid UTF-8; every reply written is valid UTF-8 |
| `Server.RespondEncoded` | src/main.rs:37-53 | the bytes of a non-empty text are answered as the text is, and the reply is written as its UTF-8 bytes; a panic on the text is the same panic on its bytes; the bytes of the empty text end the loop |
| `Text.Decimal` | src/main.rs:17 | the rendering of a length is non-empty, all decimal digits, and starts with `0` only for zero |
| `Text.DecimalValue` | src/main.rs:17 | reading the rendered digits back gives the number |
| `Utf8.EncodeChar` | src/main.rs:17 | a character takes one to four bytes, exactly one for ASCII, and every byte after the first is a continuation byte |
| `Utf8.Encode` | src/main.rs:53 | a string takes at least one and at most four bytes per character, and exactly one per character when it is ASCII (with `DecodeEncode`, decoding the bytes gives the string back) |
| `Utf8.ByteLen` | src/main.rs:17 | the length `str::len` reports lies between the number of characters and four times it, and equals the number of characters exactly for ASCII text |
| `Utf8.EncodeAppend` | src/main.rs:17 | the encoding of a concatenation is the concatenation of the encodings, so lengths in bytes add up |
| `Utf8.DecodeChar` | src/main.rs:44-47 | whatever the decoder accepts at the front of the bytes is exactly the encoding of the character it yields |
| `Utf8.Decode` | src/main.rs:44-47 | whatever string the decoder yields has the input bytes as its encoding |
| `Utf8.DecodeEncode` | src/main.rs:44-53 | decoding the encoding of a string gives the string back |
| `Utf8.EncodeInjective` | src/main.rs:53 | different strings are written as different bytes |
| `Resp.BulkRoundTrip` | src/main.rs:17 | a payload framed as `$<decimal length>\r\n<payload>\r\n` reads back as that payload |
| `Resp.SimpleRoundTrip` | src/main.rs:14 | a line with no CR framed as `+<line>\r\n` reads back as that line |
| `Framing.CrlfRequestRejected` | src/main.rs:49-51 | as written, any request framed with CR LF whose parts hold no backslash becomes one token after trimming, and panics at index 2 |
| `Framing.PingRequestRejected` | src/main.rs:49-51 | the RESP PING request `*1\r\n$4\r\nPING\r\n` panics with index 2 out of bounds for one token |
| `Framing.HandleCrlf` | src/main.rs:49-51 | the handler with CR LF as the separator: every reply is `+PONG\r\n` or the echo reply of token 4; it never fails with a UTF-8 error; a request whose trimmed text holds no CR LF panics at index 2 of one token |
| `Framing.CrlfRequestServed` | src/main.rs:49 | with CR LF as the separator, a request is tokenised into exactly the tokens its client framed, provided no part contains CR LF and the last part is non-empty and does not end in whitespace |
| `Framing.CrlfPingServed` | src/main.rs:12-15 | with CR LF as the separator, a RESP PING request in any case is answered `+PONG\r\n` |
| `Framing.CrlfEchoServed` | src/main.rs:16-17 | with CR LF as the separator, a RESP ECHO request is answered with its argument as a bulk string, provided the argument is non-empty, contains no CR LF and does not end in whitespace |

## Findings

| source | as written | input that shows it | evidently intended | confidence | as-written member | corrected member |
|---|---|---|---|---|---|---|
| src/main.rs:49 | the trimmed request is split on the four characters backslash, `r`, backslash, `n` | `*1\r\n$4\r\nPING\r\n` with real CR LF bytes: one token, then `command[2]` panics | split on CR LF, the line terminator of RESP requests, so that token 2 is the command name and token 4 the first argument | medium; not executed | `Framing.CrlfRequestRejected` | `Framing.CrlfRequestServed` |

`Server.Handle` keeps the separator as written, because that is what the
program does. As written, the program does serve a request whose lines are
separated by the four typed characters backslash, `r`, backslash, `n`.
`Server.HandleJoined` shows this: such a text is cut into its lines and answered
as `Parse` answers them. `Framing.HandleCrlf` is the same handler with CR LF as the
separator. `Framing.CrlfPingServed` and `Framing.CrlfEchoServed` prove that it
answers PING and ECHO requests framed by a RESP client. Even with the
correction, trimming still removes trailing whitespace from the last argument.
It also drops an empty last argument, so `ECHO ""` panics at index 4.
`Framing.CrlfRequestServed` therefore asks that the last part be non-empty
and end in non-whitespace.

## Left out

- The TCP listener, the accept loop, `tokio::spawn` per connection, the
  `BufReader`/`read_buf` reads and `stream.write` (src/main.rs:27-61). These
  are network I/O and concurrency. `Server.Respond` models one pass of the loop
  on the bytes that one read returned, and treats those bytes as one whole
  request, as the program does.
- How the bytes of the stream are divided among reads. Each pass builds a new
  `BufReader` and reads once into an empty buffer. The model does not capture
  how many bytes one read returns, nor what the dropped `BufReader` had
  buffered beyond them. A request longer than one read is therefore not
  followed across reads.
- What a panic does at run time. It ends only the panicking connection's task.
  A loop pass (`Server.Respond`) returns `Crash(panic)` and stops there.
- The result of `stream.write`, which the program discards. Partial writes are
  not modelled.
- The `println!` logging (src/main.rs:25, 32, 40, 58).
- The `RedisCommands` enum (src/main.rs:4-9). It is declared and never used.
- Key-value storage, expiry, INFO and replication. The program has none of
  them.
- The `usize` width of lengths. Lengths are unbounded naturals, which agrees
  with Rust for every string that fits in memory.
