# Dynamic image server: request decoding

This project models the request handler of a small Node.js image server
(`main.js`). The handler reads a width and a height from the URL path and makes
one of two decisions:

- It answers `400` with `content-type: text/plain` and an empty body when either
  number is NaN.
- Otherwise it answers `200` with `content-type: image/png`. It asks the image
  library to resize the fixed image `nodejs.png` to fit a `max × max` box,
  where `max` is the larger dimension, and then to crop it to
  `width × height` at `(0, 0)`. The result is piped into the response.

The model has four modules:

- `Wrappers` (`wrappers.dfy`): the `Option` type. `None` stands for NaN.
- `JsStrings` (`js_strings.dfy`): `substring(1)`, and `split` with a
  one-character separator. `split` is specified by `join`, its inverse.
- `JsParseInt` (`js_parse_int.dfy`): `parseInt` called without a radix, as
  section 19.2.5 of ECMA-262 defines it. It skips leading white space, accepts
  one `+` or `-`, and switches to radix 16 after `0x`/`0X`. It then takes the
  longest run of digits. No digits gives NaN. `DecimalString` is the decimal
  rendering of an integer. It is the encoder used for the round-trip lemma
  `ParseIntDecimalString`.
- `Handler` (`handler.dfy`): the decision `Decide(path)`, the transform plan,
  and `Serve(path, outcome)`. `Serve` is the ordered list of actions the handler
  takes on the response for a given outcome of the image library. The list
  shows that the handler calls `writeHead(200, …)` before that outcome is known.

Three behaviours of the code are easy to misread; the model follows the code:

- The dimensions are not strict base-10 numbers. `parseInt` without a radix
  reads `"0x1A"` as 26, skips leading white space, accepts a sign, and stops
  at the first non-digit. `"10abc"` is 10, and `"0x"` is NaN.
- The query string is not dropped before splitting: `url.parse(...).path`
  keeps it, and it is split on `/` with the rest of the path. A query string
  before the second `/` becomes part of the width segment, so `/10?h=5` has
  no height and gets 400. A `/` inside the query string starts a new segment,
  so `/10?h=/20` gets 200 with height 20. A query string after the height is
  harmless only when it cannot continue the height's digits
  (`DecideDimensions` states when).
- After a transform error the response gets no body, and it is also never
  ended. Nothing calls `response.end()` on that path (main.js:20-22), so the
  request is left open. Since Node sends a head only with the first write or
  end, the client receives nothing at all, not an empty 200.

## Model

| member | source | states |
|---|---|---|
| `JsStrings.Substring1` | main.js:7 | the result is the path without its first character; an empty path gives the empty string |
| `JsStrings.Split` | main.js:7 | `split("/")` always gives at least one segment; what the segments are is pinned down by `SplitPartitions` and `SplitJoin` |
| `JsStrings.SplitPartitions` | main.js:7 | the segments hold no `/` and joined with `/` give back the string they came from |
| `JsStrings.SplitJoin` | main.js:7 | splitting undoes joining, so the split is the only separator-free decomposition of the string |
| `JsStrings.SplitNoSeparator` | main.js:7 | a string without `/` is one segment |
| `JsStrings.SplitPrefix` | main.js:7 | a `/`-free prefix only lengthens the first segment and leaves the others as they were |
| `JsStrings.SplitAfterPiece` | main.js:7 | a `/`-free piece followed by `/` becomes its own first segment |
| `JsStrings.FirstPiece` | main.js:7 | the first segment is a prefix of the string that stops at its first `/` |
| `JsParseInt.TrimStartRemovesWhiteSpace` | main.js:9-10 | the trimmed part is the longest run of ECMAScript white space at the front |
| `JsParseInt.DigitPrefixIsLongest` | main.js:9-10 | the digits read are the longest run of digits of the radix at the front |
| `JsParseInt.ParseInt` | main.js:9-10 | `parseInt` is NaN exactly when no decimal digit follows the white space and sign, or when `0x` is followed by no hex digit; its values are pinned down by the `ParseInt…` lemma rows below |
| `JsParseInt.ParseIntIgnoresLeadingWhiteSpace` | main.js:9-10 | leading white space never changes the result |
| `JsParseInt.ParseIntSign` | main.js:9-10 | a `-` right before the digits negates the value; a `+` changes nothing |
| `JsParseInt.ParseIntUnsigned` | main.js:9-10 | without white space or a sign in front, the unsigned reading is the result |
| `JsParseInt.ParseIntDecimal` | main.js:9-10 | a run of decimal digits followed by a non-digit is read as its own value (`"10abc"` is 10), except for a lone `0` before `x`/`X` |
| `JsParseInt.ParseIntHex` | main.js:9-10 | `0x`/`0X` and hex digits are read in radix 16 |
| `JsParseInt.ParseIntDecimalString` | main.js:9-10 | every integer written in decimal and followed by something that ends the literal is read back exactly |
| `JsParseInt.ParseIntUndefined` | main.js:10 | a missing segment is `undefined`, and `parseInt` of it is NaN |
| `JsParseInt.TrailingLettersExample` | main.js:9 | `parseInt("10abc")` is 10 |
| `JsParseInt.HexExample` | main.js:9 | `parseInt("0x1A")` is 26 |
| `JsParseInt.BarePrefixExample` | main.js:9 | `parseInt("0x")` is NaN |
| `JsParseInt.SignedExample` | main.js:9 | `parseInt(" -7")` is -7 |
| `JsParseInt.QueryDigitsExample` | main.js:9-10 | `parseInt("10?h=")` is 10 and `parseInt("20")` is 20 |
| `JsParseInt.DigitsExample` | main.js:9-10 | two decimal digits without a leading zero, followed by a non-digit or nothing, are read as their value |
| `Handler.UrlParts` | main.js:7 | there is at least one segment, no segment contains `/`, and the segments joined by `/` give back the path without its first character |
| `Handler.Part` | main.js:9-10 | a segment that is present is read as it is; an absent one is `undefined`, which `parseInt` reads as NaN |
| `Handler.Width` | main.js:9 | the width is `parseInt` of the first segment, which always exists, so it is never read from `undefined` |
| `Handler.Height` | main.js:10 | the height is `parseInt` of the second segment when there is one, and NaN when the path has only one segment |
| `Handler.Max` | main.js:11 | `max` is at least both dimensions and equal to one of them |
| `Handler.Plan` | main.js:16-18 | the plan is a square resize whose side is the larger dimension, then a crop of exactly `width × height` at `(0, 0)` |
| `Handler.CropFitsResize` | main.js:17-18 | for non-negative dimensions the crop rectangle lies inside the resize box the plan requests, and no smaller square box would hold it |
| `Handler.Decide` | main.js:13-30 | status 400, `text/plain` and no transform exactly when width or height is NaN; otherwise 200, `image/png` and the plan for the parsed dimensions, unchanged |
| `Handler.SegmentsOf` | main.js:7-10 | the first character is dropped whatever it is, and the two segments read are the text between the first three `/` |
| `Handler.DecideDimensions` | main.js:7-18 | `/<w>/<h>` with any integers (negative, zero, unbounded) is answered 200 with `[Resize(max, max), Crop(w, h, 0, 0)]`, whatever follows `h` as long as it cannot continue its digits |
| `Handler.ExtraSegmentsIgnored` | main.js:7-10 | segments after the second, and the first character of the path, never change the decision |
| `Handler.MissingHeightRejected` | main.js:10-13 | a path with no second segment has a NaN height and is answered 400 |
| `Handler.Serve` | main.js:13-30 | the first action is the one head the decision chose, and no later action writes a head again |
| `Handler.Body` | main.js:24 | an action list with nothing piped has an empty body |
| `Handler.BodyConcat` | main.js:24 | the body of consecutive actions is the first part's body followed by the second's, so piped bytes reach the client in order |
| `Handler.HeadPrecedesOutcome` | main.js:15-19 | the head and the call into the image library are the same whatever the library later reports |
| `Handler.RejectionIsEmpty` | main.js:28-30 | a rejected request writes `400 text/plain`, ends at once with an empty body, and never calls the image library |
| `Handler.TransformErrorKeepsStatus` | main.js:19-22 | a transform error is logged; the handler's head stays `WriteHead(200, image/png)`, nothing is piped, and the response is never ended |
| `Handler.TransformOutputIsBody` | main.js:23-25 | a successful transform produces exactly: head 200 `image/png`, start the transform, pipe its output, end; the output is the whole body |
| `Handler.WideExample` | main.js:11-18 | `/100/50` resizes to 100×100 and crops to 100×50 at `(0, 0)` |
| `Handler.TallExample` | main.js:11-18 | `/50/100` resizes to 100×100 and crops to 50×100 at `(0, 0)` |
| `Handler.PassThroughExample` | main.js:9-18 | `/-5/0` is accepted and passes -5 and 0 to the image library unchanged |
| `Handler.NoDigitsExample` | main.js:9-13 | `/abc/10` is answered 400 |
| `Handler.MissingHeightExample` | main.js:10-13 | `/10` is answered 400 |
| `Handler.QueryBeforeHeightExample` | main.js:7-13 | `/10?h=5` has no second segment and is answered 400 |
| `Handler.QuerySegments` | main.js:7 | `/10?h=/20` splits into the segments `10?h=` and `20` |
| `Handler.SlashInQueryExample` | main.js:7-10 | for `/10?h=/20` the width is 10 and the height 20 |

## Left out

- The HTTP server, `listen(1337, '127.0.0.1')`, and the `writeHead`/`end` calls as socket I/O (main.js:6, 33). A request is its path, and the response is the list of actions `Serve` returns.
- `url.parse`: the model starts from its `.path` string. A request whose path is null (the handler would throw) is not modelled.
- The pixel work of the image library (`gm`) is not modelled. In particular `resize(max, max)` keeps the aspect ratio in GraphicsMagick, so the plan states the requested box, not the size of the image produced. The library is reduced to the plan it is given and an abstract outcome: an error message, or the PNG bytes.
- Streaming: `stdout.pipe(response)` is one `Pipe` action with all bytes of the output. Incremental delivery, backpressure, and a failure part way through the stream are not modelled.
- `console.log(err)` is kept only as a `Log` action that carries the message.
- JavaScript numbers are doubles; the model uses unbounded integers. Precision loss above 2^53, `Infinity` for very long digit runs, and `-0` (`parseInt("-0")` is `-0`, here 0) are not modelled.
- JavaScript strings are UTF-16 code units; here a character is a Unicode scalar value. The two differ only when the path begins with a character outside the Basic Multilingual Plane, which `substring(1)` would cut in half.
- `DecimalString` writes integers in plain decimal and is only the encoder of the round-trip lemmas; the handler never turns a number into text.
- Determinism and independence between concurrent requests hold by construction: `Decide` and `Serve` are functions of their inputs and share no state. No lemma states them separately.
