# capcurl, modelled and verified

capcurl puts a daemon between the holder of a descriptor and an HTTP origin. A client mints a
descriptor for one method and one target, someone writes one request on it, the daemon checks
the request against the mint, adds its own headers, asks the origin, and writes the answer
back. This project models that path in Dafny and proves what it promises: on every run, for
every holder, every cutting of every byte stream, and every origin.

`dafny verify dfyconfig.toml` checks everything.

## The modules

| module | what it holds |
|---|---|
| Octets, Utf8, Errors | bytes, ASCII classes, splitting, trimming, filtering, numbers, UTF-8, the error values |
| Alphabet | the character classes, cases and digits, by literal tables |
| Chunked | the chunked decoder in the unbounded integers, its grammar, and that the two agree |
| ChunkedText, EscapedText | printers of chunked bodies and percent-escapes, whose output is read back |
| Viability | exactly which undecided chunked inputs some continuation completes, and which are malformed |
| ChunkedMachine, ChunkedWords | the decoder as it is built, with sums that wrap at 64 bits: its loop, exactly what it accepts, when it agrees with the unbounded one, and when it stops the program |
| Framing, Request, RequestGrammar | the request head parser, body framing, and the grammar of accepted heads |
| FramingRules, RequestRules, RequestText | framing, heads and requests rule by rule, and why each is refused |
| Reading, Readers, ReadingRules | incremental reading of a socket, and exactly when the cutting of the stream matters |
| WholeRequests | exactly which streams are read as a request, in any spelling and framing |
| Target, Containment, Urls | request targets, percent-decoding, dot segments, a small URL parser |
| TargetRules, UrlRules, PathRules | targets and URLs rule by rule; the path of the parser and that of RFC 3986 |
| Meaning, Climbing | exactly when a path means the same to every origin, and exactly when it leaves its base |
| Methods, Grants | method sets, grants, `resolve`, `join`, header policy and injections |
| GrantRules, HeaderRules | what a grant is made of, resolves and forwards, rule by rule, and why not |
| Response, ResponseRoundTrip | the response writer, the client's reader, relaying |
| ResponseRules, ClientRules, Relay | responses rule by rule, and what the client sees of the origin's answer |
| Exchange | the client's request writer and the round trip of requests |
| Upstream | what the origin may do, and the cap on its answer |
| Mint, MintRules | both halves of the mint handshake, and its cases |
| Session, Safety, Honest | the daemon as a state machine, what every run keeps, and that honest sessions complete |
| Scripts, OneShot | what every run of one connection comes to, whatever fails, and that it is a function of the bytes |
| ServiceRules | what becomes of a descriptor, case by case |
| Delivery | what was written on a finished descriptor is what the client reads back |
| Serve | the daemon's program for one connection, proved to make exactly the effects of the machine's run |

Where the source changes things step by step the model has a method with a loop, or a class
with fields (`Socket`, `Transport`, `Origin`), proved against a function; what the source
promises is then proved of that function. Every send, receive, read and write may fail, in the
classes as in the state machine; the holder's bytes, the messages and the origin's replies are
arbitrary.

Functions that compute are tied down twice: by what they do for each other, and, in the modules
whose names end in `Rules` or `Text` and in `Alphabet`, by literal tables of characters, names and
numbers and by printers whose output is read back.

The main results, in the order in which they lean on each other: `Chunked.ChunkedIsExact`,
`WholeRequests.RequestIsExact` and `Grants.ResolveIsExact` say exactly what is accepted;
`Reading.CuttingMattersExactly` and `Readers.RequestIsOneShot` say when the cutting of a stream
matters; `Containment.OrderOfDecodingIsIrrelevant` says that an accepted path has one meaning;
`Safety.FetchesAreExact` and `Safety.EveryFetchIsContained` put them together for every
interleaving; `Honest.SessionsComplete` and `OneShot.FetchedIffIntended` are the other
direction; and `Serve.ServeConnection` carries all of it over to the program.

## Conventions

- A byte is the character with the same code, so an ASCII text and its bytes are one sequence.
  Rust's `String` is a Dafny string of Unicode scalars; where the source counts bytes of a
  text, the model counts its UTF-8 length.
- Reads return arbitrary non-empty pieces of at most 8192 bytes, and then the end of the
  stream or a failure: a list of pieces is a segmentation, and a statement about all lists is
  about all segmentations. A write goes well or fails after some of its bytes, as a list of
  fates says.
- Lengths and limits are unbounded integers except where the source's width decides:
  `Content-Length` and chunk sizes are bounded by 2^64, status codes by 2^16, the reading
  guard saturates, and the chunked decoder that readers, machine and program use has the
  wrapping sums of an optimized build. Where a slice is out of range the program stops: the
  connection ends with `Stopped`, and nothing is written on it. A build with overflow checks
  stops at every sum that wraps.
- How an error is put into words is a parameter (`describe`), which gives the
  bytes of the text; the theorems hold for all of them.
- A method set is printed in an arbitrary order of its members, of which sorted order is one.
- Status code and reason of the origin's answer are arbitrary; the source takes the reason
  from a table.
- `CleanBase` asks of a configured base path what `normalize_target` asks of targets: well
  formed escapes, and no dot segments before or after decoding.

## Where the code and its comments differ

The model follows the code in each case.

- `crates/capcurl-http/src/chunked.rs:19-21` calls the input of `NeedMore` a well-formed
  prefix. A malformed size line is only refused once its CRLF has arrived, and a missing CRLF
  after data only once both its bytes have: `Viability.NeedMoreIsViableExactly` says which
  inputs can still be completed, and `Viability.NeedMoreIsNotViability` that `zz` cannot.
- `crates/capcurl-http/src/chunked.rs:61-74` adds in 64 bits. A size near 2^64 after a non-empty
  chunk passes the limit check in a wrapping build, and its end can wrap to an earlier CRLF; then
  a slice is out of range, the code that serves the connection panics, and no refusal is written
  (`ChunkedWords.PanickingStream`). `ChunkedWords.MachinePanicsExactly` says on which inputs,
  `ChunkedMachine.MachineAgreesExactly` when the wrapped sums change the answer at all, and
  `ChunkedWords.MachineAcceptsAsDecoded` that no such input is ever accepted. Answering, as in
  `Safety.FinishedDescriptorsAreAnswered` and `Serve.ServeConnection`, is claimed for the others.
- `crates/capcurl-core/src/daemon.rs:294-302` says that chunk overhead is bounded. One-byte
  chunks take six bytes each, so a legal body may pass the guard, and then acceptance depends
  on the segmentation: `Reading.CuttingMattersExactly` and `Readers.TinyChunksDependOnCutting`.
- `crates/capcurl-grant/src/lib.rs:181-183` says that injections overwrite client headers of
  the same name. `apply_headers` refuses the request instead: `Grants.UpstreamHeadersAreExact`.
- `crates/capcurl-grant/src/lib.rs:217-219` speaks of escaped separators only. The switch also
  admits a raw backslash, which the check on the assembled URL then has to catch:
  `Grants.BackslashIsStoppedByTheJoin` and `Grants.JoinIsExact`. What the switch costs is said
  exactly by `Meaning.OrderOfDecodingMattersExactly`, for origins that take a decoded `\` for `/`
  as for those that do not, and by `Climbing.StayingBeneathIsExact`.
- `crates/capcurl-core/src/exchange.rs:66` says that a complete response is read. The daemon
  bounds no header it relays, and the client gives up on a long head: exactly the heads of at
  most 65537 bytes arrive under every segmentation, and exactly those of more than 73728 under
  none (`ResponseRoundTrip.DeliveredExactly`, `ResponseRoundTrip.RefusedExactly`).

## Model

| member | source | states |
|---|---|---|
| Chunked.ChunkedIsExact | crates/capcurl-http/src/chunked.rs:29-76 | `Complete(body, consumed)` if and only if the first `consumed` bytes are non-empty chunks with sizes of 1 to 16 hexadecimal digits, a zero size line and an empty trailer, `body` is their data in order, and it fits the limit. Section 7.1 of RFC 9112 without extensions and trailers. |
| Chunked.EncodedIsAccepted | crates/capcurl-http/src/chunked.rs:29-76 | Round trip: every such encoding within the limit is decoded to its data, whatever bytes follow it. |
| Chunked.BoundaryIsUnique | crates/capcurl-http/src/chunked.rs:29-76 | No stream begins with two different chunked bodies, so no other reader of the same grammar can find another boundary. |
| Chunked.DecodeIsStable | crates/capcurl-http/src/chunked.rs:33-75 | A decision on a prefix, acceptance or refusal, is the decision on every extension. |
| Chunked.CompleteIsTight | crates/capcurl-http/src/chunked.rs:33-75 | Every prefix shorter than `consumed` needs more, every longer one gives the same result. |
| Chunked.CompleteUnderLimits | crates/capcurl-http/src/chunked.rs:61-63 | A complete body is the result under another limit if and only if it fits that limit. |
| Chunked.TooLargeIsExact | crates/capcurl-http/src/chunked.rs:61-63 | The decoder refuses for length if and only if the input begins with chunks that fit the limit and a size line that does not fit with them. |
| Chunked.SizeLineFits | crates/capcurl-http/src/chunked.rs:79-85 | Every accepted size line is below 2^64, so the radix conversion cannot fail. |
| Chunked.RoundsAdvance | crates/capcurl-http/src/chunked.rs:65-74 | A round that reads data advances by at least 6 and stays within the input, so the loop ends and every slice is in bounds. |
| Alphabet.HexDigitsAreByTable | crates/capcurl-http/src/chunked.rs:79-85 | A hexadecimal digit is worth its place in `0123456789abcdef`, or in `0123456789ABCDEF`. |
| Alphabet.HexIsByTable | crates/capcurl-http/src/chunked.rs:79-85 | A byte is a hexadecimal digit if and only if it stands in one of the two tables. |
| ChunkedText.HexTextRoundTrip | crates/capcurl-http/src/chunked.rs:79-85 | Every number, printed with either table, is read back as itself. |
| ChunkedText.DataRoundTrip | crates/capcurl-http/src/chunked.rs:29-85 | From data to data: any non-empty pieces, each written as its length in hexadecimal digits of either case, CRLF, the piece and CRLF, then `0` and two CRLFs, are decoded to their concatenation by both decoders, whatever follows. |
| Viability.NeedMoreIsViableExactly | crates/capcurl-http/src/chunked.rs:19-76 | An undecided input has a continuation that completes it if and only if what follows its chunks is open: part of a size line, with or without its CR, whose value fits the limit, or a whole size line that fits and at most its data and the first half of the CRLF after it. |
| Viability.NeedMoreIsNotViability | crates/capcurl-http/src/chunked.rs:19-21 | For one, `zz` is answered with `NeedMore`, and no continuation of it is ever complete. |
| Viability.BadChunkIsExact | crates/capcurl-http/src/chunked.rs:33-71 | In the unbounded integers the decoder refuses as malformed if and only if after its chunks stands a line that is no size, a trailer that is not empty, or data that fit the limit and are not followed by CRLF. |
| ChunkedMachine.MachineAgreesExactly | crates/capcurl-http/src/chunked.rs:61-74 | On 64 bits with wrapping sums, for every slice and every 64-bit limit, the answer is the unbounded one if and only if no declared size reaches 2^64 together with the chunks before it, and none within the limit ends beyond 2^64, save the largest size line at the very end of the input, where both wait for more. |
| ChunkedMachine.SmallLimitsEndInRange | crates/capcurl-http/src/chunked.rs:66-69 | When input length and limit leave room below 2^64, the second sum never wraps. |
| ChunkedMachine.WrappingStream | crates/capcurl-http/src/chunked.rs:61-63 | A concrete stream of 24 bytes on which the wrapping sum does not refuse a size that is beyond every limit. |
| ChunkedWords.DecodeChunked | crates/capcurl-http/src/chunked.rs:29-76 | The loop over `pos` and `body`, with its 64-bit sums, its early exits in the same order and its slices, returns what `MachineDecode` returns, or stops where a slice is out of range; the rows below say what that is. |
| ChunkedWords.MachineAcceptsExactly | crates/capcurl-http/src/chunked.rs:29-76 | The loop completes if and only if the first `consumed` bytes are a chunked body of the grammar whose chunks end below 2^64, and the data fit the limit. |
| ChunkedWords.MachineAcceptsAsDecoded | crates/capcurl-http/src/chunked.rs:29-76 | What it completes is what the unbounded decoder completes, and conversely for bodies that end below 2^64: no input on which a sum wraps is ever accepted. |
| ChunkedWords.MachineIsStable | crates/capcurl-http/src/chunked.rs:33-75 | A decision on a prefix, a stop included, is the decision on every extension. |
| ChunkedWords.MachineIsTight | crates/capcurl-http/src/chunked.rs:33-75 | Every prefix shorter than `consumed` needs more, every longer one gives the same result. |
| ChunkedWords.MachinePanicsExactly | crates/capcurl-http/src/chunked.rs:61-74 | The program stops if and only if after chunks within the limit stands a size whose sum with the body passes the limit, wrapped or not, and whose end wraps between the two bounds of its slice or to an earlier CRLF. |
| ChunkedWords.PanickingStream | crates/capcurl-http/src/chunked.rs:61-74 | A concrete stream of 25 bytes that stops the program. |
| Framing.ComputeFraming | crates/capcurl-http/src/request.rs:193-224 | The loop over the headers with its two accumulators returns the framing, or the error of the first offending header, of the left-to-right scan. |
| Framing.FramingIsExact | crates/capcurl-http/src/request.rs:193-238 | A framing is returned if and only if the multiset of headers declares it: all lengths plain decimal, below 2^64 and equal, at most one transfer encoding and it is `chunked`, and not both. |
| FramingRules.FramingFollowsTheRules | crates/capcurl-http/src/request.rs:193-238 | Section 6.3 of RFC 9112 in terms of the headers alone: chunked if and only if there is no `Content-Length` and exactly one `Transfer-Encoding`, whose trimmed value is `chunked` up to case; a length above zero if and only if there is no `Transfer-Encoding` and at least one `Content-Length`, and every one trims to digits of that value below 2^64; no body if and only if there is no `Transfer-Encoding` and every `Content-Length` says zero. |
| FramingRules.BothFramingsAreRefused | crates/capcurl-http/src/request.rs:217-219 | Both kinds of header together are always refused. |
| FramingRules.FramingErrors | crates/capcurl-http/src/request.rs:193-224 | And why: two framings that are each in order; a length that is no number or disagrees; a coding that is not `chunked` or is the second. |
| Framing.FramingIgnoresOrder | crates/capcurl-http/src/request.rs:193-224 | Reordering headers changes neither acceptance nor framing. |
| Framing.FramingIgnoresUnrelated | crates/capcurl-http/src/request.rs:193-224 | Headers under other names, wherever they stand, change neither the framing nor the error. |
| Request.NextLine | crates/capcurl-http/src/request.rs:96-115 | One step of the line iterator takes the first line of `Lines` and leaves the others. |
| Request.TrimOws | crates/capcurl-http/src/request.rs:182-190 | The two loops remove exactly the leading and trailing spaces and tabs; `Octets.TrimIsUnique` says that this core is the only one. |
| Octets.TrimIsUnique | crates/capcurl-http/src/request.rs:182-190 | If a text is padding, core, padding and the core neither begins nor ends with padding, the core is the trimmed text. |
| RequestRules.RequestLineIsExact | crates/capcurl-http/src/request.rs:122-151 | A line is a request line if and only if it is a token, a printable target and `HTTP/1.1` or `HTTP/1.0`, between single spaces. |
| RequestRules.RequestLineErrors | crates/capcurl-http/src/request.rs:122-151 | It is refused for its version if and only if all but the version is right; every other refusal is of the whole line. |
| RequestRules.HeaderLineIsExact | crates/capcurl-http/src/request.rs:154-180 | A line is a header line if and only if it is a token, directly a colon, and a printable value in optional whitespace. |
| Alphabet.TokensExcludeDelimiters | crates/capcurl-grant/src/method.rs:80-99 | The bytes of a token are the printable ones that are none of the delimiters of RFC 9110. |
| Alphabet.FieldValuesAreVisible | crates/capcurl-http/src/request.rs:168-174 | Those of a target are 0x21 to 0x7E; those of a value also space and tab, which alone are trimmed from it. |
| RequestRules.HeadersErrors | crates/capcurl-http/src/request.rs:62-77 | Header lines are refused for the first line before an empty one that is wrong: the 129th, a folded one, or no header line. |
| Request.ReadHeaderLine | crates/capcurl-http/src/request.rs:154-180 | The header line is read as the declarative parse: token name, colon, trimmed printable value, no leading whitespace. |
| Request.ParseHead | crates/capcurl-http/src/request.rs:47-92 | The imperative parser, with its mutable header list and its early exits in the same order, returns what `Parse` returns; the rows on heads say what that is. |
| RequestRules.HeadErrors | crates/capcurl-http/src/request.rs:47-92 | A head is refused exactly for the first of these: more than 65536 bytes, no first line, the request line, the first wrong header line, the framing, an upgrade. |
| Request.FindHeaderIsExact | crates/capcurl-http/src/lib.rs:80-85 | A header is missing if and only if no name equals the wanted one up to case. |
| Relay.FoundIsFirst | crates/capcurl-http/src/lib.rs:80-85 | The value that is found is that of the first header of the name. |
| Alphabet.EqIgnoreCaseIsExact | crates/capcurl-http/src/lib.rs:80-85 | Two names are equal up to case if and only if they are equally long and in each place hold the same character, or the two letters of a pair of the alphabet. |
| RequestGrammar.AcceptedHeadsAreExact | crates/capcurl-http/src/request.rs:47-180 | A head cut at its first CRLFCRLF is accepted as `h` if and only if its bytes spell `h`: request line, header lines with optional whitespace, empty line, nothing else, within 64 KiB and 128 headers, framed as declared and without an upgrade. |
| RequestGrammar.AcceptedHeadsAreUnambiguous | crates/capcurl-http/src/request.rs:47-180 | An accepted head is consumed to its last byte; rendering it without optional whitespace and parsing again gives the same head; every CR and LF belongs to a CRLF; the lenient reading of section 2.2 of RFC 9112 sees the same lines. |
| RequestGrammar.HeadIsCutAtItsEnd | crates/capcurl-http/src/lib.rs:75-77 | Non-empty lines and an empty line are cut exactly at their end, whatever follows. |
| RequestText.EndIsFound | crates/capcurl-http/src/lib.rs:75-77 | The end that is found is just behind the first CRLFCRLF. |
| RequestText.HeadsAreRead | crates/capcurl-core/src/daemon.rs:237-256 | A head is read if and only if the stream begins with its text, request line, fields and an empty line, with at most 128 fields and 65536 bytes, whose headers declare the framing by the rules and ask for no upgrade; and the rest is left over. |
| RequestText.HeadRefusals | crates/capcurl-core/src/daemon.rs:237-256 | Exactly why none is read: what ends at the first CRLFCRLF is refused; or no end comes within 65536 bytes, or at all. |
| Readers.Socket.Read | crates/capcurl-core/src/daemon.rs:248-254 | A read returns the next non-empty piece of at most 8192 bytes, and after the last one the end of the stream or a failure; the pieces are arbitrary, so they stand for every segmentation. |
| Readers.Socket.WriteAll | crates/capcurl-core/src/daemon.rs:320-321 | A write gets all bytes out, or fails after some of them. |
| Readers.WritesByFate | crates/capcurl-core/src/daemon.rs:320-321 | Head and body get out whole unless a write fails, and then up to where it does. |
| Readers.ReadHead | crates/capcurl-core/src/daemon.rs:237-256 | The reading loop computes the accumulation of the pieces up to the first complete head, parses it, and leaves exactly the unread pieces on the socket; a failing read ends it with an I/O error. |
| Readers.HeadIsOneShot | crates/capcurl-core/src/daemon.rs:237-256 | Under every segmentation the head, or the error, is the one-shot reading of the whole stream, and leftover plus unread bytes are its exact remainder. |
| Readers.ReadBody | crates/capcurl-core/src/daemon.rs:259-312 | The body reader dispatches on the framing, refuses a declared length over the limit before reading, and computes the accumulation for that framing, or meets a failing read. |
| Readers.ReadLength | crates/capcurl-core/src/daemon.rs:267-288 | Exactly `len` bytes of the stream, or the two numbers of the early end, or a failing read. |
| Readers.ReadChunked | crates/capcurl-core/src/daemon.rs:290-310 | Decoding again after every piece, with 64-bit sums, computes the decision of the shortest deciding buffer, the stop of the program, the length guard, the early end, or a failing read. |
| Readers.BodyIsOneShot | crates/capcurl-core/src/daemon.rs:259-312 | Under every segmentation the body, or the error, is the one-shot reading of leftover and stream; for chunked framing on settled streams, which the next rows delimit. |
| Readers.RequestIsOneShot | crates/capcurl-core/src/daemon.rs:186-194 | Head reader and body reader together are one function of the whole stream, under every segmentation and for either ending of the stream: `RequestFrom`, and `RequestOf` when the stream ends cleanly. For chunked framing on settled streams. |
| RequestText.BodyRefusals | crates/capcurl-core/src/daemon.rs:259-312 | Exactly why no body is read: a length over the limit, or beyond the stream; chunks that the decoder refuses, cannot complete within twice the limit and 4096 bytes, cannot complete at all, or stops at. |
| RequestText.BodiesAreRead | crates/capcurl-core/src/daemon.rs:259-312 | And a body is read if and only if the stream goes on with a wire form of it, within the limit. |
| RequestText.RequestsAreRead | crates/capcurl-core/src/daemon.rs:186-194 | A stream is read as a request if and only if it begins with the text of a head, by the rules, and a wire form of the body. |
| RequestText.ChunkedRequestsAreRead | crates/capcurl-core/src/daemon.rs:186-194 | Any data in any chunks after a head whose only framing header is a chunked coding is read with the data as body, whatever follows. |
| WholeRequests.RequestIsExact | crates/capcurl-core/src/daemon.rs:186-194 | A stream is read as head `h` and `body` if and only if it begins with a spelling of `h` and a wire form of `body` under the framing of `h`, within the limit: any version, case, whitespace and header order, and any chunking whose chunks end below 2^64. |
| WholeRequests.SpelledRequestIsSettled | crates/capcurl-core/src/daemon.rs:290-310 | Such a request is settled if and only if it is not chunked, or its chunked wire form ends at most one byte past the guard. |
| Readers.UnsettledBody | crates/capcurl-core/src/daemon.rs:290-310 | Without that proviso a chunked body is either the one-shot reading or refused as too large; no segmentation yields other bytes. |
| Reading.CuttingMattersExactly | crates/capcurl-core/src/daemon.rs:290-310 | The verdict is the same under all segmentations if and only if the stream never decides, or decides at most one byte past the guard, or more than a whole read past it. |
| ReadingRules.ChunkedCuttingByBytes | crates/capcurl-core/src/daemon.rs:290-310 | In bytes: cutting into pieces of at most 8192 is irrelevant to a chunked body if and only if the decoder never decides, or first decides on a prefix of at most 2 * limit + 4097 bytes, or of more than 2 * limit + 12288, the guard saturating at 2^64 - 1. |
| ReadingRules.HeadCuttingByBytes | crates/capcurl-core/src/daemon.rs:237-256 | And to where a head stops the reader if and only if it never ends, or ends by byte 65537, or beyond byte 73728. |
| Readers.TinyChunksDependOnCutting | crates/capcurl-core/src/daemon.rs:294-302 | A legal body of 1024 one-byte chunks, within its limit of 1024, is accepted or refused depending on the segmentation. |
| Reading.CompleteIsDecidedByItself | crates/capcurl-core/src/daemon.rs:290-310 | The shortest deciding prefix of a complete chunked body is the body itself. |
| Reading.AccumulateKeepsBytes | crates/capcurl-core/src/daemon.rs:237-312 | Buffer plus unread pieces is always the original stream: no byte is lost, duplicated or moved, and the buffer is bounded. |
| Readers.BuffersAreBounded | crates/capcurl-core/src/daemon.rs:237-312 | Heads never hold more than 65536 + 8192 bytes, declared bodies not more than the larger of the leftover and limit + 8191, chunked bodies not more than the larger of the leftover and 2 * limit + 4096 + 8192. |
| Readers.BodyFitsLimit | crates/capcurl-core/src/daemon.rs:259-312 | A body that is returned fits the limit, under every framing and every verdict. |
| Exchange.ComposeHead | crates/capcurl-core/src/exchange.rs:43-51 | The client writes request line, placeholder host, its headers in order, the body length and an empty line. |
| Exchange.WriteRequest | crates/capcurl-core/src/exchange.rs:43-55 | Head and body are written in this order, until a write fails. |
| Exchange.RequestOverDescriptor | crates/capcurl-core/src/exchange.rs:34-64 | One request is written, and the answer is the reading of what the descriptor delivers; a write that fails is an I/O error and nothing is read. |
| Exchange.SentHeadSpells | crates/capcurl-core/src/exchange.rs:43-51 | The head that is written spells exactly the intended request in the grammar of accepted heads. |
| RequestText.SentByText | crates/capcurl-core/src/exchange.rs:43-51 | The text of that head: the request line, `Host: capability.invalid`, the headers in order, `Content-Length` with the length in decimal digits, an empty line. |
| Exchange.RequestsRoundTrip | crates/capcurl-core/src/exchange.rs:43-55 | For every token method, printable target, at most 126 well-formed headers and any body within the limit: the bytes are cut at the end of the head, and parse back to the same method, target, headers with host and length, framing and body, whatever follows. |
| Exchange.RequestsArrive | crates/capcurl-core/src/daemon.rs:187-195 | The same under every segmentation, by the incremental readers. |
| Response.EncodeHead | crates/capcurl-http/src/response.rs:23-42 | The head is the status line, the headers in order, the daemon's own length and connection headers, and an empty line. |
| ResponseRules.EncodedByText | crates/capcurl-http/src/response.rs:23-42 | The text of that head: `HTTP/1.1`, the status in decimal digits, the sanitized reason, the headers in order, `Content-Length`, `Connection: close`, an empty line. |
| Alphabet.DecimalIsByTable | crates/capcurl-http/src/response.rs:23-42 | A number is printed digit by digit from `0123456789`. |
| Response.ReadStatusAndHeaders | crates/capcurl-core/src/exchange.rs:123-152 | The client's line loop returns the declarative parse of status line and fields. |
| Response.ReadResponse | crates/capcurl-core/src/exchange.rs:67-117 | The two reading loops compute the accumulation of head and body, with every error in its place, failing reads included. |
| ResponseRules.StatusLineIsExact | crates/capcurl-core/src/exchange.rs:127-138 | A status line is one of the two versions, a space, an unsigned number of at most 16 bits, and perhaps a space and a reason, which may hold spaces. |
| Alphabet.ParseUnsignedIsExact | crates/capcurl-core/src/exchange.rs:133-137 | An unsigned number is an optional `+` and at least one decimal digit, of a value in range. |
| Alphabet.DigitsAreByTable | crates/capcurl-core/src/exchange.rs:133-137 | A decimal digit is worth its place in `0123456789`. |
| ResponseRules.FieldIsExact | crates/capcurl-core/src/exchange.rs:145-148 | A header line is split at its first colon, and both parts are trimmed. |
| ResponseRules.ResponseHeadIsExact | crates/capcurl-core/src/exchange.rs:123-152 | A response head is read if and only if it is UTF-8, its first line a status line, and each next line up to an empty one a name and a value around its first colon, both trimmed. |
| ResponseRules.ResponseHeadErrors | crates/capcurl-core/src/exchange.rs:123-152 | It is refused for its version if and only if it is UTF-8 whose first line does not start with either; every other refusal is a bad header. |
| ResponseRules.DeclaredLengthIsExact | crates/capcurl-core/src/exchange.rs:88-92 | The client goes by the first `Content-Length`, trimmed, if that is an unsigned 64-bit number, and otherwise fails for it or for there being none. |
| ClientRules.ResponsesByRule | crates/capcurl-core/src/exchange.rs:67-117 | What the client makes of any stream whose head ends by byte 65537 or never, however it is cut: an error of the head or its length, too few bytes, or status, reason, headers, exactly the declared length of body, and whether a header of the marker's name is there. |
| Utf8.DecodeIsExact | crates/capcurl-core/src/exchange.rs:124 | Bytes are decoded to a text if and only if they are its scalar values, each as RFC 3629 writes it. |
| ResponseRoundTrip.EncodedHeadParses | crates/capcurl-http/src/response.rs:23-42 | Every writable head parses back to its status, sanitized reason, and trimmed headers followed by length and connection. |
| ResponseRoundTrip.WrittenLengthIsRead | crates/capcurl-core/src/exchange.rs:88-92 | The length the client acts on is the one the daemon wrote, because no header before it is a length. |
| ResponseRoundTrip.ResponseIsReadOrRefused | crates/capcurl-core/src/exchange.rs:67-117 | For every writable head, any body and every segmentation: the client gets status, sanitized reason, trimmed headers and exactly the body, or, if it gives up before it finds the end of the head, the refusal of a head that is too large. |
| ResponseRoundTrip.ResponsesRoundTrip | crates/capcurl-core/src/exchange.rs:67-117 | A written response whose head has at most 65537 bytes is read back exactly under every segmentation. |
| ResponseRoundTrip.DeliveredExactly | crates/capcurl-core/src/exchange.rs:67-84 | A written response is read back under every segmentation if and only if its head has at most 65537 bytes. |
| ResponseRoundTrip.RefusedExactly | crates/capcurl-core/src/exchange.rs:67-84 | It is refused under every segmentation if and only if its head has more than 73728 bytes. |
| ResponseRoundTrip.LongHeadsExist | crates/capcurl-core/src/daemon.rs:217-232 | For every length over the limit there is a head with a header of that length that the daemon would relay unchanged, and that some segmentation loses. |
| ResponseRoundTrip.RelayedIsExact | crates/capcurl-core/src/daemon.rs:217-225 | The relayed headers are those that are neither hop-by-hop, nominated, nor unprintable: each occurrence once, in order. |
| Relay.RelayedByRule | crates/capcurl-http/src/response.rs:72-100 | A header is passed on if and only if its name is none of the ten literal names, nor an item, trimmed and up to case, between the commas of the first `Connection`, and its value is visible text. |
| Relay.RelayIsSeen | crates/capcurl-core/src/daemon.rs:211-232 | The relayed answer, read back: the origin's status, its sanitized reason, its body, and each of its headers that is passed on, trimmed and in order, then `Content-Length` and `Connection: close`. |
| Relay.SeenIsFramedStrictly | crates/capcurl-http/src/response.rs:66-83 | What is read back has exactly one framing: the strict rules for requests make of its headers the length of its body, because no length and no coding of the origin is passed on. |
| ResponseRoundTrip.RelayedIsWritable | crates/capcurl-core/src/daemon.rs:217-225 | What is relayed from an origin with token names meets the conditions of the round trip: no length of its own survives. |
| ResponseRoundTrip.RefusalIsWritable | crates/capcurl-http/src/response.rs:49-63 | So does every refusal, whatever its text, and it carries the refusal marker. |
| Relay.RefusalIsSeenSo | crates/capcurl-core/src/daemon.rs:330-346 | A refusal, read back: 413, 502, 403, 400 or 500 by its cause with the reason that belongs to it, marked, with the error in words as body and four literal headers. |
| Delivery.RefusalHeadIsShort | crates/capcurl-http/src/response.rs:49-63 | The head of every refusal is within the limit of the client, whatever its text. |
| Relay.RefusalIsSeen | crates/capcurl-core/src/exchange.rs:109 | The client sees that a refusal is one. |
| Delivery.RelayIsSeenAsRefusalExactly | crates/capcurl-core/src/exchange.rs:109 | A relayed answer is taken for a refusal if and only if the origin itself sent a header of the marker's name and it was passed on. |
| Delivery.FinishedResponsesAreRead | crates/capcurl-core/src/daemon.rs:119-139 | On every run: what was written on a finished descriptor, when no write failed, is one response; refusals are read back under every segmentation and seen as refusals, and relayed answers exactly when their head has at most 65537 bytes. |
| Octets.SanitizeIsExact | crates/capcurl-http/src/response.rs:103-114 | Sanitizing keeps every printable text of 1 to 64 characters as it is, and sanitizing twice changes nothing more, unless the fallback was used. |
| Octets.SanitizeByRule | crates/capcurl-http/src/response.rs:103-114 | In general it keeps, of all printable characters and spaces, in order, the first 64, or the fallback if there are none. |
| Target.CheckEscapes | crates/capcurl-grant/src/target.rs:145-162 | The loop over the index returns the recursive scan from 0. |
| Target.EscapesAreExact | crates/capcurl-grant/src/target.rs:145-162 | The scan accepts if and only if every `%` introduces two hexadecimal digits. |
| Target.DecodeSegment | crates/capcurl-grant/src/target.rs:165-188 | The loop over `i` and `out` returns the recursive decoding. |
| Target.DecodesIffWellEscaped | crates/capcurl-grant/src/target.rs:165-188 | Decoding succeeds if and only if every `%` introduces two hexadecimal digits. |
| EscapedText.SpelledDecodes | crates/capcurl-grant/src/target.rs:165-188 | From bytes to bytes: any bytes, each either as it is or as `%` and its two hexadecimal digits of either case, are decoded to themselves, if every `%` is escaped. |
| Target.WalkPath | crates/capcurl-grant/src/target.rs:108-142 | The loop over the segments reports the first offending segment, as `CheckPath` does. |
| Target.SegmentsAreExact | crates/capcurl-grant/src/target.rs:108-142 | All segments pass if and only if each non-last one is non-empty and each decodes to neither a dot segment nor, unless allowed, a text with a separator. |
| Target.PiecesAreWellEscaped | crates/capcurl-grant/src/target.rs:108-142 | No escape straddles a separator: pieces of well-escaped text are well escaped. |
| Target.DecodingNeverFails | crates/capcurl-grant/src/target.rs:108-142 | Once the path is checked for escapes, decoding a segment cannot fail. |
| Target.NormalizeIsExact | crates/capcurl-grant/src/target.rs:68-105 | A target is accepted if and only if it belongs to a set described without reference to the checks or their order. |
| Target.NormalizeIsLossless | crates/capcurl-grant/src/target.rs:68-105 | `/`, path, `?` and query put together are the target, byte for byte, and normalizing them again gives the same. |
| TargetRules.LengthIsOfBytes | crates/capcurl-grant/src/target.rs:72-74 | The length that is limited is that of the UTF-8 bytes of the target. |
| TargetRules.PartsOfTarget | crates/capcurl-grant/src/target.rs:90-93 | Path and query are what stands before and after the first question mark. |
| TargetRules.FormErrors | crates/capcurl-grant/src/target.rs:72-88 | A target that is too long, not printable, not origin-form, protocol-relative or with a fragment is refused for the first of these, and no other for any. |
| TargetRules.TargetErrors | crates/capcurl-grant/src/target.rs:90-142 | Any other target is refused exactly for a bad escape in its path; or else for its first wrong segment, and for what is wrong with it; or else for a bad escape in its query. |
| Containment.SplitAndDecodeCommuteExactly | crates/capcurl-grant/src/target.rs:108-142 | Splitting then decoding equals decoding then splitting, at `/` or `\`, if and only if no segment decodes to a text with a separator. |
| Containment.SeparatorsAreTheOnlyDifference | crates/capcurl-grant/src/target.rs:126-138 | A target accepted with encoded separators on is accepted with them off if and only if the two orders give the same segments. |
| Containment.GoodPathsAreClean | crates/capcurl-grant/src/target.rs:108-142 | Checked paths hold no dot segment before or after decoding, and both orders of splitting and decoding agree. |
| Containment.AcceptedPathIsGood | crates/capcurl-grant/src/target.rs:68-142 | Every accepted target has such a path. |
| Containment.OrderOfDecodingIsIrrelevant | crates/capcurl-grant/src/target.rs:108-142 | Base plus accepted path is a fixed point of section 5.2.4 of RFC 3986 both before and after decoding, so every order of the two means the same path under the base. |
| Containment.RemoveDotsIsIdentity | crates/capcurl-grant/src/target.rs:108-142 | The algorithm of section 5.2.4 of RFC 3986, step by step, copies every path without dot segments. |
| Containment.EncodedSeparatorsCanEscape | crates/capcurl-grant/src/lib.rs:217-223 | With encoded separators on, `/..%2f` is accepted, and an origin that decodes first leaves the base: the failing input of `Climbing.StayingBeneathIsExact`. |
| Containment.RemovingNothingIsExact | crates/capcurl-grant/src/target.rs:108-142 | The algorithm of section 5.2.4 of RFC 3986 leaves a path as it is if and only if the path has no dot segment. |
| Meaning.OrderOfDecodingMattersExactly | crates/capcurl-grant/src/target.rs:108-142 | Under either setting of the switch, for every base without dot segments and every checked path: decoding and removing dot segments give the same in either order, to an origin that takes only `/` and to one that takes a decoded `\` too, if and only if neither base nor path holds a dot segment between decoded separators of either kind. |
| Meaning.EncodedBackslashIsAccepted | crates/capcurl-grant/src/target.rs:126-138 | For one, `/..%5cx` is accepted with the switch on, and hides a dot segment behind its backslash. |
| Meaning.SlashedSplits | crates/capcurl-grant/src/target.rs:126-138 | The segments that an origin sees that takes `\` for `/` are those between separators of either kind. |
| Climbing.StayingBeneathIsExact | crates/capcurl-grant/src/target.rs:108-142 | A decoded path stays beneath every directory it is appended to, after section 5.2.4 of RFC 3986, if and only if its segments never climb: at no point `..` is met with nothing of the path left to remove. |
| Urls.UrlTextParses | crates/capcurl-grant/src/lib.rs:300-317 | Assembled URL text parses back to the same scheme, authority and query, and to the normalized path. |
| Urls.NormalizedPathIsNormal | crates/capcurl-grant/src/lib.rs:129-173 | Whatever was written, a parsed path holds no dot segment in any spelling and no backslash. |
| UrlRules.UrlIsExact | crates/capcurl-grant/src/lib.rs:130-146 | A text is read as a URL if and only if it is scheme, `://`, authority, path, and perhaps a query and a fragment; the path comes out as the parser normalizes it. |
| PathRules.ParserFollowsTheStandard | crates/capcurl-grant/src/lib.rs:300-317 | What it makes of a path is what section 5.2.4 of RFC 3986 makes of it once separators of either kind are slashes and dot segments are unescaped. |
| PathRules.PlainPathsAreTheStandards | crates/capcurl-grant/src/lib.rs:300-317 | A path without escapes and backslashes comes out just as section 5.2.4 of RFC 3986 has it. |
| PathRules.SingleDotIsExact | crates/capcurl-grant/src/lib.rs:317 | To the parser a segment is `.` if and only if it decodes to `.`. |
| PathRules.DoubleDotIsExact | crates/capcurl-grant/src/lib.rs:317 | And `..` if and only if it decodes to `..`. |
| Grants.GrantsAreNormalized | crates/capcurl-grant/src/lib.rs:129-173 | Every grant that can be built has a normalized base without query and fragment, and the scope its path calls for. |
| GrantRules.NewGrantIsExact | crates/capcurl-grant/src/lib.rs:129-173 | A grant is made if and only if the text is an `http` or `https` URL without user, query or fragment; and then it reads and nothing else (GET and HEAD), admits all but the denied headers, injects and pins nothing, allows a query and no encoded separators, and limits both bodies to 8388608 bytes. |
| GrantRules.NewGrantsPermitReading | crates/capcurl-grant/src/lib.rs:129-173 | So every new grant resolves `/` to its base for GET and HEAD, in any case. |
| Grants.PinningKeepsTheGrant | crates/capcurl-grant/src/lib.rs:201-209 | Pinning a request keeps it so. |
| GrantRules.PinningIsExact | crates/capcurl-grant/src/lib.rs:201-209 | Pinning changes nothing but the pinned request and the methods. |
| GrantRules.PinnedRequestsAreResolved | crates/capcurl-grant/src/lib.rs:267-271 | A pinned grant resolves whatever is asked just as it would resolve the pinned request without the pin. |
| Grants.JoinOnto | crates/capcurl-grant/src/lib.rs:300-330 | Assembling the text in steps, parsing it once and checking it returns what `Join` returns. |
| Grants.JoinIsExact | crates/capcurl-grant/src/lib.rs:300-330 | Under every setting the join refuses if and only if the normalized path no longer starts with the base path, and otherwise yields exactly scheme, authority, that path and the query. |
| Grants.EscapeIsUnreachable | crates/capcurl-grant/src/lib.rs:300-330 | The join never refuses a checked target unless encoded separators are on and it holds a backslash: the result is the base path followed by the target. |
| Grants.BackslashIsStoppedByTheJoin | crates/capcurl-grant/src/lib.rs:317-327 | That exception is real: `/..\x` passes the target checks with encoded separators on, and the join refuses it. |
| Grants.ResolveIsExact | crates/capcurl-grant/src/lib.rs:267-291 | Exactly which requests resolve: method granted, target acceptable, query allowed, exact scope respected, and, only with encoded separators on, the joined path beneath the base. |
| GrantRules.ResolutionIsExact | crates/capcurl-grant/src/lib.rs:267-330 | And to what: the method asked for, up to case and without a lower-case letter, if it is a token of at most 32 bytes and granted; and the base with the joined path and the query of the target. |
| GrantRules.CaseOfMethodNeverMatters | crates/capcurl-grant/src/lib.rs:267-291 | The case in which a valid method is asked for changes nothing, neither what it resolves to nor why not. |
| GrantRules.RefusalsAreExact | crates/capcurl-grant/src/lib.rs:267-330 | A request is refused exactly for the first of these: a method that is none, or not granted; its target; a query; a target beyond an exact resource; a path that leaves the base. |
| Grants.SlashNamesTheBase | crates/capcurl-grant/src/lib.rs:267-291 | Under every scope and setting, an unpinned grant resolves `/` with a granted method to exactly the base. |
| Grants.ResolvedIsWithinTheBase | crates/capcurl-grant/src/lib.rs:267-330 | Whatever resolves, under every setting, keeps scheme and authority, and its normalized path starts with the base path. |
| Grants.ResolvedIsBeneathTheBase | crates/capcurl-grant/src/lib.rs:267-330 | With encoded separators off, the segments of the result are the segments of a prefix extended at their boundary, or the path is the exact one. |
| Grants.ResolvedMeansTheSameToEveryOrigin | crates/capcurl-grant/src/lib.rs:267-330 | And removing dot segments before or after decoding changes nothing: the decoded path begins with the decoded base. |
| Grants.ResolvedMeansOneThingExactly | crates/capcurl-grant/src/lib.rs:267-330 | Under either setting, every resolved path, raw backslashes in the target included, means one path to every origin if and only if neither the base nor what goes beyond it hides a dot segment. |
| Grants.ResolvedPathIsJoined | crates/capcurl-grant/src/lib.rs:267-330 | Every resolved path is the joined one: normal, starting with the base path, going beyond it only after a slash, well escaped if the base is, and the base path followed by the target when that holds no backslash. |
| Grants.ResolvedStaysUnlessItClimbs | crates/capcurl-grant/src/lib.rs:267-330 | Under either setting, a resolved path stays beneath the decoded base for an origin that decodes first, unless the segments beyond the base climb; likewise for an origin that takes a decoded `\` for `/`. |
| Grants.PinningPermitsItsMethod | crates/capcurl-grant/src/lib.rs:201-209 | Pinning leaves exactly the pinned method, so a pinned request is never refused for a method that is a token, whatever the client asks. |
| Grants.ApplyHeaders | crates/capcurl-grant/src/lib.rs:336-365 | Refuses at the first client header that is injected or not permitted, and otherwise returns client headers then injections. |
| Grants.UpstreamHeadersAreExact | crates/capcurl-core/src/daemon.rs:196-206 | With leg filtering before it: accepted if and only if every header outside the descriptor leg is admitted; the result is every occurrence of those headers in order and then the injections; and the values under an injected name are the injected ones only. |
| Grants.ValuesArePicked | crates/capcurl-grant/src/lib.rs:360-364 | The values under a name are those of its headers up to case, each one, in order. |
| Grants.LegHeadersAreNeverAdmitted | crates/capcurl-core/src/daemon.rs:30-41 | Dropping a header of the descriptor leg never drops one that some policy would have admitted. |
| HeaderRules.AdmittedByRule | crates/capcurl-grant/src/header.rs:75-84 | A client header is admitted if and only if its name is, up to case, none of the fourteen literal denied ones and no injected one, and the policy is the open one or lists the lower-cased name. |
| HeaderRules.LegByName | crates/capcurl-core/src/daemon.rs:30-41 | A header is of the descriptor leg if and only if its name is, up to case, one of the ten literal ones. |
| HeaderRules.RequestsForwardByRule | crates/capcurl-core/src/daemon.rs:196-206 | A request is passed on if and only if each header is of the leg or may be set; and then with every occurrence of those that are not of the leg, in order, and the injections. |
| HeaderRules.NoHeadersMeansInjectionsOnly | crates/capcurl-grant/src/header.rs:75-84 | Under the policy that admits nothing, only the injections go upstream. |
| HeaderRules.RefusalNamesTheHeader | crates/capcurl-grant/src/lib.rs:347-356 | What is refused is reported under the sanitized name of a header that may not be set. |
| Methods.ReadMethods | crates/capcurl-grant/src/method.rs:21-36 | Inserting one method after the other gives the parsed set, or the first bad entry. |
| Methods.Display | crates/capcurl-grant/src/method.rs:50-60 | Printing with a flag for the first member is joining with commas. |
| Methods.CanonicalizeIsIdempotent | crates/capcurl-grant/src/method.rs:69-77 | A canonical name is a token equal to the name up to case, and canonicalizing it again changes nothing. |
| Methods.CanonicalizeIsExact | crates/capcurl-grant/src/method.rs:69-77 | A name has a canonical spelling if and only if it is a token of at most 32 bytes, and it is the one equal to it up to case and without a lower-case letter. |
| Alphabet.CaseIsByTable | crates/capcurl-grant/src/method.rs:76 | Changing case exchanges the letters of the same place in the two alphabets and nothing else. |
| Methods.CaseOfMethodIsIrrelevant | crates/capcurl-grant/src/method.rs:69-77 | Names equal up to case have one canonical spelling. |
| Methods.MethodSetIsExact | crates/capcurl-grant/src/method.rs:21-36 | A list is accepted if and only if every entry between commas, without the white space around it, is empty or a method, and one is a method; and the set is that of their canonical spellings. |
| Alphabet.WhiteSpaceIsListed | crates/capcurl-grant/src/method.rs:24 | White space is the 25 characters that Unicode lists as such. |
| Methods.MethodSetErrors | crates/capcurl-grant/src/method.rs:21-36 | It is refused for the first entry that is no method, under its sanitized name, or else for naming nothing. |
| Methods.MethodSetsRoundTrip | crates/capcurl-grant/src/method.rs:21-60 | Parsing the printed form of a parsed set gives the set back, in whatever order its members are printed. |
| Methods.SingleMethodParses | crates/capcurl-grant/src/lib.rs:201-209 | A valid method parses to its own singleton. |
| Upstream.ReadCapped | crates/capcurl-core/src/upstream.rs:96-112 | The loop over the chunks returns the capped concatenation. |
| Upstream.CappedIsExact | crates/capcurl-core/src/upstream.rs:96-112 | Refused if and only if the chunks together exceed the limit; otherwise everything that was sent, or the error of a broken transfer. |
| Upstream.FetchedBodyIsExact | crates/capcurl-core/src/upstream.rs:40-112 | A reply is accepted if and only if it ends properly, announces no more than the limit and holds no more; then all of it is returned. |
| ServiceRules.ReplyRefusals | crates/capcurl-core/src/upstream.rs:40-112 | Exactly why a reply is not relayed: it announces or holds more than the limit; or else it breaks off, or there is none. |
| Mint.ReadMintRequest | crates/capcurl-core/src/daemon.rs:142-175 | The loop over messages returns the recursive reading, with its errors in the source's order, a failing channel included. |
| Mint.MintRequestIsExact | crates/capcurl-core/src/daemon.rs:142-175 | A mint request is read if and only if the channel brings method, target and end, in this order. |
| MintRules.MintRefusals | crates/capcurl-core/src/daemon.rs:142-175 | Exactly why none is read: a third argument, an early end, an argument that is no text, a message that has no place there, the end of the channel or its failure. |
| Mint.MintCapability | crates/capcurl-core/src/client.rs:31-92 | The client sends method, target and end until a send fails, and returns the reading of the replies. |
| Mint.SendThree | crates/capcurl-core/src/daemon.rs:103-110 | Of three messages, those before the first failing send get out, and the sender knows whether all did. |
| Mint.ReplyIsExact | crates/capcurl-core/src/client.rs:40-91 | A capability is minted if and only if at most two reports and one descriptor arrive; what is not reported is taken to be what was asked. |
| MintRules.RepliesByCase | crates/capcurl-core/src/client.rs:40-91 | What the client makes of any reply: the first two arguments are method and target; then one descriptor, a wrong number of them, a failure, a third argument, a message that has no place there, or the end. |
| MintRules.ClientIsTold | crates/capcurl-core/src/daemon.rs:63-110 | When no send fails the client is told exactly why its request is refused, or what is bound. |
| Session.ConnectionsAreIndependent | crates/capcurl-core/src/daemon.rs:63-139 | In every interleaving each connection is where its own events alone would have brought it: connections share nothing but the grant. |
| Safety.StepKeepsInv | crates/capcurl-core/src/daemon.rs:63-233 | Every step, including every failure, keeps the invariant that ties what was sent, fetched and answered to what was asked and read. |
| Safety.EveryRunIsSafe | crates/capcurl-core/src/daemon.rs:63-233 | Every connection of every interleaving satisfies the invariant. |
| Safety.FetchesAreExact | crates/capcurl-core/src/daemon.rs:178-210 | At most one fetch per connection; its method and URL are what `resolve` returned for this mint; the holder's bytes spell one request whose method is the bound one up to case and whose target is the bound one; body within the limit; and of its headers just those are forwarded that the rules let through, with the injections behind them. |
| Safety.RefusedMintsDoNothing | crates/capcurl-core/src/daemon.rs:68-86 | A refused or unfinished mint request causes no fetch and hands over no descriptor. |
| Safety.MismatchedRequestsFetchNothing | crates/capcurl-core/src/daemon.rs:190-192 | Bytes that are not one acceptable request matching the binding cause no fetch. |
| Safety.FinishedDescriptorsAreAnswered | crates/capcurl-core/src/daemon.rs:119-139 | When serving a descriptor has finished, nothing failed on the way out and the decoder did not stop the program, exactly one response was written, never more: read back, it has the origin's status, sanitized reason, body and passed-on headers, or the status and words of the refusal. |
| Safety.EveryFetchIsWithinTheBase | crates/capcurl-core/src/daemon.rs:63-233 | On every run under every grant: scheme, authority and path prefix of the base, a granted method, injected values only under injected names. |
| Safety.EveryFetchObeysThePolicy | crates/capcurl-core/src/daemon.rs:196-206 | On every run the injections are the last headers of a fetch, and each one before them is none of the fourteen denied names, none of the injected ones, and one that the policy admits; under the policy that admits nothing there are none. |
| Safety.EveryFetchIsContained | crates/capcurl-core/src/daemon.rs:63-233 | With encoded separators off, on every run, the fetched URL lies beneath the base for every origin, whichever it does first, decoding or removing dot segments. |
| Safety.EveryFetchStaysUnlessItClimbs | crates/capcurl-core/src/daemon.rs:63-233 | Under either setting, on every run, the fetched path stays beneath the decoded base for an origin that decodes first, of either kind, unless the decoded segments beyond the base climb. |
| Safety.FetchesKeepOneMeaningExactly | crates/capcurl-core/src/daemon.rs:63-233 | Under either setting, on every run, a fetched path keeps one meaning for every origin, whether it decodes or removes dots first and whether or not it takes `\` for `/`, if and only if neither the base nor what goes beyond it hides a dot segment. |
| Safety.TroubleIsFailure | crates/capcurl-core/src/daemon.rs:118-136 | A connection counts as troubled if and only if its events hold an awaited failure to open the stream or to write a response, or a piece that makes the body one on which the 64-bit decoder stops the program. |
| Honest.BindingIsARequestLine | crates/capcurl-core/src/daemon.rs:88-104 | Whatever resolves, pinned or not, the reported method and target form a request line that parses back to them and matches the binding. |
| Honest.EveryMintCanBeUsed | crates/capcurl-core/src/daemon.rs:78-110 | Whatever resolves can be used: a request made of the binding with a body of any 64-bit length fits every bound of the request parser, and no header policy refuses it. |
| Honest.ClientLearnsBinding | crates/capcurl-core/src/client.rs:40-74 | The client reads from the offer exactly the method and target that were bound. |
| Honest.HonestRequestsAreFetched | crates/capcurl-core/src/daemon.rs:178-210 | Every request that the client's own writer makes of the reported binding, cut in any way and followed by anything, leads to exactly the fetch it asks for. |
| Honest.MatchingRequestsAreFetched | crates/capcurl-core/src/daemon.rs:178-210 | So does every request for the bound target by the bound method in any case, whose headers are all of the leg or may be set, in any spelling and framing that `WholeRequests.RequestIsExact` admits; chunked bodies when settled. |
| Honest.AnswersAreRelayed | crates/capcurl-core/src/daemon.rs:208-232 | A fetched answer ends the connection with exactly that answer relayed. |
| Honest.SessionsComplete | crates/capcurl-core/src/daemon.rs:63-233 | End to end, in any interleaving: the client learns the binding; any request for it, in any spelling, makes the origin see exactly one request, with its body and its headers as the rules forward them; and the client reads back the origin's status, sanitized reason, body and passed-on headers, however either stream is cut, up to response heads of 65537 bytes. |
| Honest.HonestSessionsComplete | crates/capcurl-core/src/daemon.rs:63-233 | The same for the client's own requests: mint, request, fetch, answer and reading back, end to end, in any interleaving. |
| Serve.ServeRequest | crates/capcurl-core/src/daemon.rs:178-233 | The program reads, with the 64-bit decoder, checks, filters, fetches and relays in the source's order; its effects on socket and origin are those of `ServiceOf`, and a relayed answer that cannot be written is an I/O error. |
| Serve.ServeConnection | crates/capcurl-core/src/daemon.rs:63-139 | The whole program, on any messages, segmentation and reply, and whatever fails, makes exactly the effects of the state machine's run: messages sent, fetches made, bytes written, outcome; when the decoder stops it, nothing is written. That run satisfies the safety invariant, and on a settled stream another cutting of the same bytes has the same effects. |
| Serve.DropLegHeaders | crates/capcurl-core/src/daemon.rs:196-204 | The filter loop keeps exactly the headers outside the descriptor leg, in order. |
| Serve.RelayHeaders | crates/capcurl-core/src/daemon.rs:211-231 | The relaying loop builds the head from status, reason and the relayed headers. |
| Serve.FetchUpstream | crates/capcurl-core/src/upstream.rs:40-112 | The origin is asked once, and the reply is capped. |
| Serve.WriteResponse | crates/capcurl-core/src/daemon.rs:315-324 | Head and body are written, in this order, until a write fails. |
| Serve.LandedIsTheResponse | crates/capcurl-core/src/daemon.rs:132-136 | Unless a write failed, the bytes on the descriptor are exactly the one response of the run, or none. |
| Scripts.ScriptsEnd | crates/capcurl-core/src/daemon.rs:63-139 | On the machine, whatever the messages, the failures of sends, sockets, reads and writes, the pieces and the reply are: the run ends, with the messages sent, fetches, responses and outcome that `EndOf` lists case by case, a stop of the program among them. |
| Scripts.MintPhaseRuns | crates/capcurl-core/src/daemon.rs:142-175 | The machine reads a mint request, and its end, exactly as the loop over messages does. |
| Scripts.RequestPhaseRuns | crates/capcurl-core/src/daemon.rs:186-206 | The machine reads a request piece by piece exactly as head reader, binding check and body reader do. |
| OneShot.ServiceIsOneShot | crates/capcurl-core/src/daemon.rs:178-233 | Serving is one function of the bytes on the descriptor, for every segmentation of a settled stream. |
| OneShot.FetchedIffIntended | crates/capcurl-core/src/daemon.rs:178-210 | After a resolved mint the origin is asked if and only if the bytes begin with a request that the binding and the policy admit, and then exactly that. |
| ServiceRules.ServiceByRule | crates/capcurl-core/src/daemon.rs:178-233 | Case by case, on every settled stream and however it is cut: whether and what is fetched and what the client sees, in the order of the source: no head, another method or target, no body, a header that may not be sent, or one fetch and the answer, or why that is not relayed. |
| OneShot.CuttingLeavesTheEnd | crates/capcurl-core/src/daemon.rs:63-139 | Two segmentations of one settled stream come to the same end. |

## Left out

- Sockets, `socketpair`, descriptor passing, tokio and timeouts: streams are lists of pieces, and a timeout is a failure of the origin.
- The capsudo wire format and transports: messages are a datatype, with one case for an argument that is not UTF-8.
- reqwest, TLS, HTTP/2 and header maps: the origin is an arbitrary reply; a header that cannot be converted counts as a fetch without a reply, although the source gives up before sending.
- The `url` crate: `Urls` is a small parser with scheme, authority, path, query and fragment; percent-encode sets, IDNA, ports and relative references are not modelled, so text that the crate would re-encode is kept as it is.
- Base URLs with a user name: the source's refusal of them is modelled by refusing an `@` in the authority.
- `HeaderPolicy::parse`, `Injection::parse` and credential files: policies and injections are given.
- Command lines, logging, exit codes and `examples/mint.py`: thin plumbing.
- Error texts: errors are values, and a refusal's status and reason follow `refusal_for`.
- Connection-nominated headers beyond the first `Connection` field: the source reads only the first.
- Which error is reported when headers are reordered: the framing theorems are about success and the framing.
- Serve.FetchUpstream: counts a request with a header that a header map cannot hold as made, because header maps are not modelled; the request parser lets no such client header through.
- Urls.UrlTextParses: keeps characters that the `url` crate would percent-encode as they are, because percent-encode sets are not modelled.
- Grants.JoinIsExact: states the joined path without that re-encoding.
- Grants.EscapeIsUnreachable: states the joined path without that re-encoding.
- OneShot.FetchedIffIntended: asks chunked bodies to be settled, because otherwise the segmentation decides; what else can then happen is said by Readers.UnsettledBody.
