# protocol-handler: a Dafny model of the payload codec and the render pipeline

`server.js` registers a custom URL scheme (`web+foo`). A URL of that scheme
carries a Base64-encoded JSON object as its hostname. When the browser
activates such a URL, a resolve callback turns it into a request to a local
endpoint. It does this by Base64-encoding the whole URL into the `req`
query parameter. The endpoint then renders two panels:

- the URL recovered from `req`;
- the JSON payload read back from that URL's hostname.

This project models that flow as pure functions and proves what the code
guarantees about it. The modules are:

- `Base64` (base64.dfy): the byte-level codec behind `toB64` and `fromB64`.
  - The encoder is the standard alphabet with `=` padding, as in section 4 of RFC 4648.
  - The decoder is Node's lenient reading of text whose characters are all below U+0100. It skips characters outside the alphabet. It accepts the URL-safe digits `-` and `_` (section 5 of RFC 4648). It stops at the first `=`. It drops a single leftover digit.
  - Proved: the round trip, injectivity, the shape of the encoder's output, and that the encoder's image is exactly the canonical texts, on which decoding and encoding are mutually inverse.
- `Octets` (octets.dfy): two facts about byte/number conversion that the other modules use.
- `Codec` (codec.dfy): the text-level `toB64` and `fromB64`.
  - Node's UTF-8 conversion between text and bytes is a parameter (`TextCodec`). The string round trip holds for every text the conversion keeps intact.
  - A one-byte-per-character ASCII instance is given and proved lossless on ASCII text.
- `Resolution` (resolution.dfy): the resolve callback, which prefixes the endpoint to the Base64 form of the whole URL. It is injective, and `fromB64` recovers the URL from its `req` value.
- `Pipeline` (pipeline.dfy): `compose` as a left fold of stages that may throw. A thrown exception ends the fold.
- `JsValue` (jsvalue.dfy): the JavaScript values in the pipeline, with `String(v)` and truthiness.
- `Interpreter` (interpreter.dfy): `getUrl`, `getData`, `prettyPrint`, `show`, and the two panels `showUrl` and `showData`. The URL parser and the JSON formatter are parameters. The module also has a guarded data panel, which is the correction recorded under Findings.
- `Scenarios` (scenarios.dfy): two concrete cases.
  - The example link in the header comment decodes to `{"publishedBlockId":"my-uuid-goes-here"}`.
  - `web+foo://test` resolves to `http://localhost:3000?req=d2ViK2ZvbzovL3Rlc3Q=`.

The comment on `show` (server.js:45, "If defined, show data…") and its falsy guard (server.js:46) suggest that a request without `req` renders empty panels. The code does not: `showData` hands `undefined` on to `new URL`, which throws. The model follows the code (see Findings).

## Model

| member | source | states |
|---|---|---|
| Base64.CharOf | server.js:22 | every digit the encoder writes is one of `A–Z a–z 0–9 + /` |
| Base64.ValueOf | server.js:28 | for characters below U+0100, the decoder gives a character a digit value exactly when it is in the standard alphabet or is `-` or `_` |
| Base64.ValueOfCharOf | server.js:22-28 | the decoder reads every encoder digit back as the 6-bit value it was written for |
| Base64.CharOfValueOf | server.js:22-28 | every standard digit is the encoder's digit for the value the decoder reads from it |
| Base64.Encode | server.js:22 | the output has length `4 * ceil(n/3)` for `n` bytes; every character is an alphabet digit except a final run of `PadLength(n)` `=` signs |
| Base64.PadLength | server.js:22 | at most two `=` are added, and they bring the byte count up to a multiple of three |
| Base64.Digits | server.js:28 | the lenient reader takes at most one value per input character |
| Base64.Decode | server.js:28 | decoding yields at most three bytes per four characters |
| Base64.UnpackPack | server.js:22-28 | joining the 6-bit groups of any bytes gives those bytes back |
| Base64.DigitsOfChars | server.js:22-28 | the lenient reader recovers the values behind encoder digits and stops at the padding after them |
| Base64.RoundTrip | server.js:22-28 | decoding the encoding of any bytes returns the same bytes |
| Base64.EncodeInjective | server.js:22 | distinct byte sequences never share an encoding |
| Base64.PackZeroTail | server.js:22 | the encoder never leaves a lone digit and always clears the unused bits of the last digit |
| Base64.PackUnpack | server.js:28 | on values with a clear tail, splitting the decoded bytes into groups gives the values back |
| Base64.EncodeIsCanonical | server.js:22 | every encoder output is canonical: whole groups of four, digits then at most two `=`, unused bits clear |
| Base64.CanonicalReencodes | server.js:22-28 | re-encoding the decoding of canonical text gives the same text |
| Base64.CanonicalIffEncoding | server.js:22-28 | a text is canonical exactly when it is some encoding, and exactly when decoding and re-encoding leave it unchanged |
| Base64.EncodeGroups | server.js:22 | the encoding of three or more bytes is the four digits of the first three followed by the encoding of the rest |
| Codec.ToB64 | server.js:22 | `toB64(s)` is canonical Base64, decodes to the bytes of `s`, and is empty exactly when `s` has no bytes |
| Codec.FromB64 | server.js:28 | on the Base64 form of any bytes, `fromB64` yields the text of exactly those bytes |
| Codec.TextRoundTrip | server.js:22-28 | `fromB64(toB64(s)) == s` for every text the byte conversion keeps intact |
| Codec.ToB64Injective | server.js:22 | two such texts have equal Base64 forms exactly when they are equal |
| Codec.AsciiLossless | server.js:22-28 | the one-byte conversion keeps every ASCII text intact, so the round trip applies to it |
| Codec.AsciiBytesOfText | server.js:28 | converting bytes to one-byte text and back gives the same bytes |
| Resolution.Resolve | server.js:53 | the resolved address starts with `http://localhost:3000?req=`, and the rest is canonical Base64 of the bytes of the entire activated URL |
| Resolution.ReqOf | server.js:53 | an address has a `req` part exactly when it starts with the endpoint, and endpoint plus that part is the address |
| Resolution.ReqOfResolve | server.js:53 | the `req` value of a resolved address is `toB64` of the whole URL, not of its hostname |
| Resolution.ResolveRecoverable | server.js:53 | `fromB64` of the `req` value of a resolved address gives back the activated URL |
| Resolution.ResolveInjective | server.js:53 | two activated URLs resolve to the same address exactly when they are equal |
| Pipeline.Compose | server.js:16 | with one stage, `compose(f)(x)` is `f(x)`, and a throw in the first stage is the outcome of the whole pipeline; `ComposeSmall`, `ComposeIsNested` and `ComposeStopsAtFailure` state the rest |
| Pipeline.ComposeSmall | server.js:16 | `compose()` is the identity, `compose(f)` is `f`, and `compose(f, g)(x)` is `g(f(x))`, with a throw in `f` skipping `g` |
| Pipeline.ComposeAppend | server.js:16 | composing `fs` followed by `gs` runs `fs`, then runs `gs` on its result |
| Pipeline.ComposeIsNested | server.js:16 | the left fold equals the last stage applied to the composition of the others |
| Pipeline.ComposeStopsAtFailure | server.js:16 | a stage that throws ends the pipeline with its exception; no later stage runs |
| JsValue.OfOption | server.js:43 | a missing result is `undefined` and a present one is that string |
| Interpreter.ReqUrl | server.js:43 | `getUrl` finds nothing exactly when `req` is missing or empty, and otherwise yields `fromB64(req)` |
| Interpreter.GetUrl | server.js:43 | as a pipeline stage, `getUrl` throws only on `undefined`, yields `undefined` for a string, and yields the `ReqUrl` result for a query |
| Interpreter.GetData | server.js:34-37 | `getData` throws a TypeError exactly when the URL text does not parse, and otherwise yields `fromB64` of the hostname |
| Interpreter.GetDataOfPayload | server.js:34-37 | for a URL whose hostname is `toB64(p)`, `getData` yields `p`, for every payload the text conversion keeps intact |
| Interpreter.PrettyPrint | server.js:48 | `prettyPrint` throws a SyntaxError exactly when the text is not JSON, and otherwise yields the formatted text |
| Interpreter.Show | server.js:46 | `show` gives `""` exactly for a falsy value; otherwise the result ends with `<pre>data</pre>` and starts with `<h4>header</h4>` exactly when the header is non-empty |
| Interpreter.ShowInjective | server.js:46 | under one header, equal non-empty panels come from equal data |
| Interpreter.UrlPanelText | server.js:63 | a non-empty URL panel is `<h4>URL</h4><pre>url</pre>` |
| Interpreter.ShowUrl | server.js:63 | `showUrl` never throws: it is `show('URL')` of what `getUrl` found |
| Interpreter.ShowUrlPanel | server.js:63 | `showUrl` never throws; it is empty exactly when `req` is missing, empty, or decodes to empty text, and otherwise shows the decoded URL |
| Interpreter.ResolvedRequest | server.js:53-63 | for the `req` value of a resolved address, taken verbatim, `getUrl` finds the activated URL, and finds nothing only when that URL has no bytes; the URL panel shows the URL |
| Interpreter.ShowData | server.js:64 | `showData` throws a TypeError when the URL text does not parse, and a SyntaxError when the hostname's payload is not JSON; otherwise it shows the formatted payload |
| Interpreter.MissingReqBreaksPage | server.js:64 | without a usable `req`, `showData` and so the whole page body throw |
| Interpreter.Panels | server.js:91-92 | the URL panel always renders, so the page body renders exactly when `showData` does, throws its exception otherwise, and holds the two panels' texts |
| Interpreter.ShowDataGuarded | server.js:64 | the guarded data panel is empty when `req` is missing or empty |
| Interpreter.GuardedAgrees | server.js:64 | with a usable `req`, the guarded panel equals the as-written panel when that panel renders, and is empty when it throws |
| Interpreter.PanelsGuarded | server.js:91-92 | the guarded page body always renders: empty panels without `req`, and otherwise the as-written body whenever that one renders |
| Scenarios.SampleHostDecodes | server.js:3-8 | the payload is `{"publishedBlockId":"my-uuid-goes-here"}`, the hostname is `eyJwdWJsaXNoZWRCbG9ja0lkIjoibXktdXVpZC1nb2VzLWhlcmUifQ==` (written as two literals), and the hostname of the example link decodes to the ASCII bytes of `{"publishedBlockId":"my-uuid-goes-here"}`, and `fromB64` reads it as that text |
| Scenarios.ResolveSample | server.js:53 | the activated URL is `web+foo://test`, its Base64 form is `d2ViK2ZvbzovL3Rlc3Q=`, and it resolves to the endpoint followed by that form |

## Left out

- HTTP and page plumbing (server.js:55-96): Express, `cors`, the routes, `app.listen` and the HTML template. Only the two panel expressions at server.js:91-92 are modelled, as `Interpreter.Panels`.
- The `custom-protocol-handler` library (server.js:52, 61): its URL matching and redirect are foreign code. Only the callback it receives is modelled.
- `navigator.registerProtocolHandler` and `unregisterProtocolHandler` (server.js:74-84): browser API calls inside the template. The `web+blankos` literal at server.js:83 does not match the registered scheme, but nothing in the model depends on it.
- Environment defaults (server.js:11-12): configuration constants. The resolve callback does not depend on them.
- `new URL(s).hostname` (server.js:35): a WHATWG URL parser. It is the parameter `HostParser`, with `None` standing for a thrown TypeError.
- `JSON.parse` and `JSON.stringify` (server.js:48): library JSON. They are the parameter `JsonFormatter`, with `None` standing for a thrown SyntaxError.
- Node's UTF-8 conversion between text and bytes: runtime code. It is the parameter `TextCodec`, and the string-level lemmas assume it is lossless on the text at hand. Only the ASCII instance is concrete.
- Query-string parsing: the query is a map from names to single strings, and the resolved `req` value is taken verbatim. Express's parser turns `+` into a space and builds arrays for repeated names, so the round trip is not claimed through a real HTTP request.
- Base64.ValueOf: Node reads a JavaScript string as UTF-16 code units and looks up only the low byte of each unit, so a character such as U+0141 reads as `A`, U+013D acts like `=`, and a character beyond U+FFFF counts as two units. The model reads each character by its full value and gives `None` for all characters from U+0100 on; its claims about Node's decoder hold for text below U+0100.
- Codec.FromB64: its contract fixes the result only for text that is the encoding of some bytes. For other text the lenient decoder's result is defined (`Base64.Decode`) but no property beyond its length bound is stated.

## Findings

| source | as written | input that shows it | evidently intended | confidence | as-written member | corrected member |
|---|---|---|---|---|---|---|
| server.js:64 | `showData` composes `getUrl`, `getData` and `prettyPrint` without a guard, and the route handler has no `try`. When `req` is missing or empty, `getUrl` yields `undefined` and `getData` calls `new URL("undefined")`, which throws a TypeError. The same happens when `req` decodes to text `new URL` rejects, and `prettyPrint` throws a SyntaxError when the hostname's payload is not JSON. In each case Express answers with its error response instead of the page | `GET /` with an empty query | an empty Data panel beside an empty URL panel, as the comment on `show` ("If defined, show data…", server.js:45) and its falsy guard (server.js:46) suggest | not executed; high (a URL parser rejects `undefined`, which has no scheme) | Interpreter.MissingReqBreaksPage | Interpreter.PanelsGuarded |
