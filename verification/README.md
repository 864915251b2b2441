# Webhook receiver: hex decoding and request dispatch

This project models the core of a webhook receiver for an application
platform. The receiver authenticates each request with an Ed25519 signature.
It then reads the body as a webhook envelope and turns it into a response and
log records. Two pieces are modelled:

- `hexToUint8Array`, which decodes hex text into bytes (module `Hex`,
  `hex.dfy`). It cuts the text into two-character pieces. It reads each piece
  with JavaScript's `parseInt(piece, 16)` and stores the number into a
  `Uint8Array`. The model is total. `ParseInt16` follows `parseInt` as
  section 19.2.5 of ECMA-262 defines it: leading white space, one sign, the
  `0x` prefix, the longest run of digits, NaN. It keeps the exact integer
  where `parseInt` returns a double, so the two agree on values below 2^53 in
  magnitude, which covers every two-character piece. `ToUint8` follows the
  typed-array store: NaN becomes 0 and integers wrap modulo 256. A store to
  an index past the end of the array is ignored, so an odd trailing
  character is dropped. Malformed text therefore decodes to the bytes it
  would produce at run time, and `Decode` has no precondition. An
  independent lower-case encoder `Encode` is the decoder's partner for the
  round trip.
- `fetch` and `logWebhookEvent`, the request handler and its subtype switch
  (modules `Handler`, `handler.dfy`, and `Events`, `events.dfy`).
  - The request passes the method gate, the presence gate and the signature
    gate in that order.
  - The envelope is then classified as Ping, Event or some other type. For
    an Event, the subtype is classified too.
  - The Ed25519 check (`verify`) and the JSON decoder (`parse`) are function
    parameters.
  - `Fetch` returns the response (status and body), the log records
    (level, message, context), and the one call made to `verify`, if any.
    From these it can be stated that a request rejected at the method or
    presence gate was never checked.

`Fetch` is a pure function of the request, the configuration, the verifier
and the decoder. A replayed request therefore gets the same outcome, and no
state is carried from one request to the next.

`Options` (`options.dfy`) holds the Option type used for absent headers and
for NaN.

Some behaviours of the code worth noting:

- EntitlementUpdate and EntitlementDelete have no case in the switch, so
  they reach the default arm and are logged as warnings, not at info level.
- Responses other than 204 carry a text body: "Method not allowed.",
  "Invalid request." and "Unexpected application webhook type.".
- Malformed hex is not rejected. It decodes to bytes as described above.
- An exception from key import or verification is not caught, so it does
  not become a 401.

## Model

| member | source | states |
|---|---|---|
| Hex.ParsePairAgrees | source/utility/functions.ts:5 | `parseInt(piece, 16)`, modelled exactly for values below 2^53 in magnitude, agrees on every two-character piece with the case analysis `ParsePair`. The cases: two digits; a digit then a non-digit (read alone); `0x`/`0X` (NaN); white space or `+` then a digit; `-` then a digit (negated); NaN otherwise. Every such value lies strictly between -16 and 256 |
| Hex.PieceIsPair | source/utility/functions.ts:5 | the piece `hex.substring(i, i + 2)` of an in-range store parses like the two characters at i and i+1 |
| Hex.ToUint8 | source/utility/functions.ts:5 | the value a `Uint8Array` element holds after a store is a byte; NaN stores 0; an integer stores its residue modulo 256 |
| Hex.Decode | source/utility/functions.ts:2 | the output has half as many elements as the text has characters, rounded down, and each is a byte, for any text |
| Hex.DecodeAt | source/utility/functions.ts:4-6 | element k of the output is the piece at positions 2k and 2k+1, read by `parseInt` and stored as a byte |
| Hex.StorePiece | source/utility/functions.ts:5 | the value an in-range store of the loop writes at i/2 is element i/2 of `Decode` |
| Hex.HexToUint8Array | source/utility/functions.ts:1-9 | the loop over i = 0, 2, 4, … that stores each parsed piece at i/2 computes exactly `Decode`. Stores start on zeroes, and the out-of-range store of an odd trailing character is skipped |
| Hex.DigitPairByte | source/utility/functions.ts:5 | two hex digits are stored as 16·value(first) + value(second) |
| Hex.DecodeDigits | source/utility/functions.ts:4-6 | whenever the characters at 2k and 2k+1 are hex digits, byte k is 16·value(hex[2k]) + value(hex[2k+1]), whatever the rest of the text holds and whatever its length's parity |
| Hex.DecodeEncode | source/utility/functions.ts:1-9 | decoding the hex encoding of any byte sequence returns that sequence |
| Hex.EncodeDecode | source/utility/functions.ts:1-9 | encoding the decoding of an even-length text of lower-case hex digits returns that text |
| Hex.DecodeConcat | source/utility/functions.ts:4-6 | decoding distributes over concatenation whenever the first text has even length, whatever its characters |
| Hex.ParsePairUpToCase | source/utility/functions.ts:5 | pieces that differ only in the case of a–f parse to the same number |
| Hex.DecodeUpToCase | source/utility/functions.ts:4-6 | texts that differ only in the case of a–f decode to the same bytes, whatever else they contain |
| Hex.DecodeUpperCase | source/utility/functions.ts:1-9 | raising every a–f of a text to A–F does not change the bytes it decodes to |
| Events.LogWebhookEvent | source/index.ts:18-52 | at most one record, always carrying the event and its timestamp, never at error level. No record exactly for ApplicationAuthorized with neither install kind. Each message appears exactly for its subtype: "Guild joined." only for GuildInstall, "User installed application." only for UserInstall, and one message each for ApplicationDeauthorized, EntitlementCreate and QuestUserEnrollment. A warning appears exactly for subtypes without a case |
| Events.DefaultArmWarnsOnce | source/index.ts:48-50 | a subtype without a case, EntitlementUpdate and EntitlementDelete included, yields exactly one warning record and nothing else |
| Handler.VerificationOf | source/index.ts:68-71 | the checked message is the timestamp followed by the body with no separator. The key and the signature are the hex-decoded configured key and signature header, of half their text lengths |
| Handler.Fetch | source/index.ts:55-103 | the status is 204, 401, 403 or 405. 405 exactly for non-POST. 401 exactly for a POST that is incomplete or fails verification. 403 exactly for an authentic request whose envelope type is neither Ping nor Event. 204 otherwise. The body is null exactly on 204, and both 401 causes share one body. `verify` is called exactly when the method and presence gates pass, on the decoded key, the decoded signature and timestamp ++ body. Rejections log nothing. 403 logs one error with the envelope. Ping logs one info "Ping." record. An Event logs what `LogWebhookEvent` gives |
| Handler.NonPostIgnoresTheRest | source/index.ts:56-58 | a non-POST request gets the same outcome (405, nothing logged, no verification) whatever its headers, body, key, verifier and decoder |
| Handler.UniformRejection | source/index.ts:64-85 | a missing field and a failed signature check yield the same response and no logs |
| Handler.RejectedIgnoresBody | source/index.ts:56-87 | the outcome of a request that is not authentic does not depend on the JSON decoder: the body is read as JSON only after verification |
| Handler.SignedMessageIsConcatenation | source/index.ts:68-69 | two complete requests with the same signature whose timestamp ++ body agree present the same arguments to the signature check |

## Left out

- The Ed25519 key import and verification are cryptography behind a library call. They are the `verify` parameter. Exceptions they throw (a key of the wrong length, for one) are not caught by the source and are not modelled.
- `TextEncoder` UTF-8 encoding is a library call. The message is handed to `verify` as the character sequence timestamp ++ body.
- `JSON.parse` is a library call. It is the `parse` parameter. Its failure on malformed JSON is an uncaught exception, not a status, and is not modelled.
- A verified body that is JSON `null`, or whose `event` is missing or `null`, or an ApplicationAuthorized event whose `data` is missing or `null`, makes the source throw an uncaught TypeError when it reads `json.type`, destructures `event` or reads `data.integration_type`. `Parser` maps every body to Ping, Event or some other type, and the `Envelope` type gives every Event a body and every ApplicationAuthorized an integration type, so those exception paths are not modelled.
- Hex.ParseInt16: keeps the exact integer, while `parseInt` rounds to a double above 2^53 and gives Infinity (stored as 0) above about 2^1024. The decoder only parses two-character pieces, whose values are below 256 in magnitude, so no decoded byte is affected.
- Logtail, `withExecutionContext` and deferred log delivery are external I/O. Logging is the returned list of records, and the logging token is not modelled.
- The runtime plumbing is not modelled: `Request` and `Response` objects, async/await, the Workers runtime and environment loading.
- Hex.Decode: the text is a sequence of Unicode characters, while JavaScript measures and cuts strings in UTF-16 code units. The two agree on every text without characters outside the Basic Multilingual Plane.
- Handler.Fetch: a header value is taken as given. Header-name case-insensitivity and the combining of repeated headers belong to the runtime.
