# Kroki node for n8n — a Dafny model of its execution

The Kroki node turns a text diagram (PlantUML, Mermaid, GraphViz, …) into an
image. For each input item it does the following:

- reads the diagram type, output format, source, server choice and options;
- validates them;
- POSTs the source to a Kroki server, either the public `https://kroki.io` or a custom one;
- stores the response as a base 64 binary attachment with a MIME type chosen from the output format.

Items are processed in order. With "continue on fail" set, a failing item
becomes a failure record in its own position. Without it, the first failure
ends the run, tagged with that item's index.

The model is organised in these modules:

- `Kroki` (kroki.dfy): the per-item pipeline, built from pure functions.
  - `MimeType` maps an output format to its MIME type.
  - `PrepareItem` does the validation, picks the base URL, builds the request URL and applies the `||` defaults.
  - `BodyToBase64` normalises the response body.
  - `ProcessItem` builds the success record.
  - The HTTP call is a parameter `transport: Request -> Transport`. It answers with a body (`Bytes`, `Str` or `Other(typeof name)`) or fails with a message.
- `KrokiBatch` (batch.dfy): the batch loop of `execute`.
  - `Execute` is a method with a `for` loop that appends to a local `returnData`. It is proved equal to the reference function `Run`, which describes the state after each prefix of the items.
  - `Execute` and `Run` take any per-item step. The node's own step is `Pipeline(transport)`.
- `Text` (text.dfy): the JavaScript string operations the node relies on:
  - `trim()`, using the ECMAScript white-space and line-terminator set;
  - `replace(/\/$/, '')`;
  - the test `match(/^https?:\/\/.+/)`. It is given twice. The first form is a small backtracking matcher over the pattern, used as a reference. The second is a closed form `IsHttpUrl`. The two are proved equivalent.
- `Utf8` (utf8.dfy): the UTF-8 encoding of section 3 of RFC 3629, as `Buffer.from(s, 'utf8')` does it, with a strict decoder and a round-trip proof.
- `Base64` (base64.dfy): padded base 64 from section 4 of RFC 4648, as `Buffer.toString('base64')` does it. Its decoder is strict: the unused bits of a padded final group must be zero (section 3.5 of RFC 4648). Round trips are proved both ways, so a text decodes to some bytes exactly when it is their encoding (`Base64.DecodeIff`).
- `Wrappers` (wrappers.dfy): `Option`, `Result` and `uint8`.

Where the code and its documentation differ, the model follows the code, in two places:

- The timeout is never clamped. `options.timeout || 30000` gives the default for a missing or zero timeout and passes every other integer through.
- `diagramType` and `outputFormat` are arbitrary strings. The node never checks them against the option lists of its UI description, so any string ends up in the URL, and `MimeType` sends every format it does not know to `application/octet-stream`.

## Model

| member | source | states |
|---|---|---|
| Kroki.MimeType | nodes/Kroki/Kroki.node.ts:15-26 | png, svg and pdf map to image/png, image/svg+xml and application/pdf, each in both directions; every other string maps to application/octet-stream and nothing else does |
| Kroki.ResolveTimeout | nodes/Kroki/Kroki.node.ts:313 | the timeout is never 0; a nonzero value passes through unclamped; the result is 30000 exactly when the option is absent, 0 or 30000 |
| Kroki.ResolveBinaryPropertyName | nodes/Kroki/Kroki.node.ts:314 | the name is never empty; a non-empty name passes through; the result is "data" exactly when the option is absent, empty or "data" |
| Kroki.BaseUrl | nodes/Kroki/Kroki.node.ts:291-292 | any server choice other than "custom" gives https://kroki.io; for "custom" the base is the URL, or the URL less one trailing slash when it ends in one |
| Kroki.PrepareItem | nodes/Kroki/Kroki.node.ts:278-326 | checks run in order (blank source; blank custom URL; invalid custom URL) and the first failure gives its message; the item succeeds exactly when the source is not blank and, for "custom", the URL passes the http(s) test; on success the request is a POST of the raw source as text/plain to base/type/format, with the resolved timeout and property name |
| Kroki.BodyToBase64 | nodes/Kroki/Kroki.node.ts:349-357 | a Buffer or string body gives an encoding; any other body type fails with "Unexpected response type: " followed by its typeof name |
| Kroki.BodyToBase64Decodes | nodes/Kroki/Kroki.node.ts:351-354 | the base 64 text decodes to exactly the Buffer's bytes, or to the UTF-8 bytes of the string, and no other text decodes to them, so it is their one encoding; the UTF-8 bytes decode back to the string |
| Kroki.FailureItem | nodes/Kroki/Kroki.node.ts:393-400 | the failure record has success false, the error message, no attachment, and pairedItem equal to the item index |
| Kroki.RenderUrl | nodes/Kroki/Kroki.node.ts:312 | the template base/type/format; it has no contract of its own, and what it produces is stated by PrepareItem, PublicServerUrl and CustomServerUrl |
| Kroki.ProcessItem | nodes/Kroki/Kroki.node.ts:277-391 | the try block for one item: a success record carries the item's index as pairedItem and success true; its full contract is Kroki.ProcessItemOutcome |
| Kroki.ProcessItemOutcome | nodes/Kroki/Kroki.node.ts:286-389 | an item ends with the validation error, the transport's error or the unexpected-type error, in that order; otherwise with a success record: pairedItem is the index, json carries the type, the format, "diagram."+format and MimeType(format), its single attachment is under the binary property name with matching mimeType, fileName and fileExtension, and its data decodes to the bytes the server sent, which by Base64.DecodeIff means it is their base 64 encoding |
| Kroki.BlankSourceFails | nodes/Kroki/Kroki.node.ts:286-288 | a blank source fails with "Diagram source is required" whatever the server settings and the server's answer |
| Kroki.PublicServerUrl | nodes/Kroki/Kroki.node.ts:291-292 | with a non-custom server and a non-blank source the item is accepted and the URL is https://kroki.io/type/format |
| Kroki.PublicServerIgnoresCustomUrl | nodes/Kroki/Kroki.node.ts:291-309 | with a non-custom server, replacing the custom URL by any other string changes nothing in the outcome |
| Kroki.CustomServerUrl | nodes/Kroki/Kroki.node.ts:292-312 | a custom item with a non-blank source and a URL passing the http(s) test is accepted, and its URL is base/type/format, where base+"/" is the custom URL if that ends in "/" and base is the URL otherwise |
| Text.TrimStart | nodes/Kroki/Kroki.node.ts:286 | the result is a suffix of the input; every dropped character is white space; the result does not start with white space |
| Text.TrimEnd | nodes/Kroki/Kroki.node.ts:286 | the result is a prefix of the input; every dropped character is white space; the result does not end with white space |
| Text.Trim | nodes/Kroki/Kroki.node.ts:286 | the result is empty exactly when every character is white space; otherwise it starts and ends with a non-space character |
| Text.StripTrailingSlash | nodes/Kroki/Kroki.node.ts:292 | exactly one trailing "/" is removed when present, otherwise the string is unchanged; the result is always a prefix |
| Text.AnyPlusAtEnd | nodes/Kroki/Kroki.node.ts:304 | `.+` at the end of the pattern matches exactly a string whose first character is not a line terminator |
| Text.IsHttpUrlIff | nodes/Kroki/Kroki.node.ts:304 | the pattern ^https?://.+ matches a string exactly when it starts with "http://" or "https://" followed by a character that is not a line terminator |
| Text.HttpUrlIsNotBlank | nodes/Kroki/Kroki.node.ts:294-304 | a URL that passes the format test is never blank |
| Utf8.EncodeChar | nodes/Kroki/Kroki.node.ts:354 | each character takes one to four bytes, exactly one byte when it is ASCII, with a lead byte and continuation bytes in their ranges |
| Utf8.Encode | nodes/Kroki/Kroki.node.ts:354 | the encoding is between one and four times the length of the string, and has the same length for an ASCII string |
| Utf8.DecodeEncodeChar | nodes/Kroki/Kroki.node.ts:354 | decoding the start of a character's encoding, whatever follows it, gives back that character and its length |
| Utf8.DecodeEncode | nodes/Kroki/Kroki.node.ts:354 | decoding the UTF-8 encoding of a string gives back the string |
| Base64.Digit | nodes/Kroki/Kroki.node.ts:352 | every 6-bit value maps to a character of the alphabet |
| Base64.ValueOf | nodes/Kroki/Kroki.node.ts:352 | the value of an alphabet character maps back to that character |
| Base64.Encode | nodes/Kroki/Kroki.node.ts:352-354 | the encoding has 4·⌈n/3⌉ characters, a multiple of four |
| Base64.EncodeAlphabet | nodes/Kroki/Kroki.node.ts:352-354 | every character of an encoding is in the alphabet, except padding "=" in the last two places |
| Base64.DecodeEncodeGroup | nodes/Kroki/Kroki.node.ts:352-354 | a full group of three octets decodes back from its four characters |
| Base64.DecodeEncode | nodes/Kroki/Kroki.node.ts:352-354 | decoding the encoding of any octet sequence gives back the sequence |
| Base64.EncodeDecodeGroup | nodes/Kroki/Kroki.node.ts:352-354 | four alphabet characters are the encoding of the three octets they decode to |
| Base64.EncodeDecode | nodes/Kroki/Kroki.node.ts:352-354 | any text that decodes is the encoding of what it decodes to: padded base 64 has no second spelling |
| Base64.DecodeIff | nodes/Kroki/Kroki.node.ts:352-354 | a text decodes to b exactly when it is the encoding of b |
| KrokiBatch.PipelineTagsItems | nodes/Kroki/Kroki.node.ts:367-389 | every success record of the node's own step carries its item index as pairedItem and success true |
| KrokiBatch.ItemRecord | nodes/Kroki/Kroki.node.ts:391-400 | item i's record has pairedItem i and is successful exactly when the item succeeded; a successful item's record is the one the step built, and a failed item's is the failure record with its message |
| KrokiBatch.Run | nodes/Kroki/Kroki.node.ts:276-406 | the reference definition of the loop's state after each prefix of the items; it has no contract of its own, and its properties are CompletedRecords, ContinueOnFailCompletes, FailFastCompletedAllSucceed, AbortedIff and AbortIgnoresLaterItems |
| KrokiBatch.AbortIsFinal | nodes/Kroki/Kroki.node.ts:401-406 | once the loop has aborted, processing more items does not change the outcome |
| KrokiBatch.Execute | nodes/Kroki/Kroki.node.ts:272-412 | the loop's outcome is the reference outcome Run over all items: the collected records, or the abort at the first failure |
| KrokiBatch.CompletedRecords | nodes/Kroki/Kroki.node.ts:276-400 | a completed run holds one record per item, in input order, record i being item i's record with pairedItem i |
| KrokiBatch.ContinueOnFailCompletes | nodes/Kroki/Kroki.node.ts:392-400 | under continue-on-fail the run never aborts |
| KrokiBatch.FailFastCompletedAllSucceed | nodes/Kroki/Kroki.node.ts:391-406 | without continue-on-fail a completed run met no failure: every item succeeded and every record is successful |
| KrokiBatch.AbortedIff | nodes/Kroki/Kroki.node.ts:401-406 | the run aborts at item k with message m exactly when continue-on-fail is off, item k fails with m and every earlier item succeeded |
| KrokiBatch.AbortIgnoresLaterItems | nodes/Kroki/Kroki.node.ts:401-406 | items after the aborting one are never processed: changing them leaves the outcome unchanged |
| KrokiBatch.OneFailingItemContinues | nodes/Kroki/Kroki.node.ts:392-400 | when exactly item k fails under continue-on-fail there is one record per item, only record k is a failure, and it carries item k's message |
| KrokiBatch.OneFailingItemAborts | nodes/Kroki/Kroki.node.ts:401-406 | when exactly item k fails without continue-on-fail the run aborts at k with its message |

## Left out

- The `description` object (nodes/Kroki/Kroki.node.ts:33-267) is UI and schema declaration for the host. Its minimum and maximum for the timeout are enforced by the editor, not by `execute`.
- The HTTP call `this.helpers.request` (nodes/Kroki/Kroki.node.ts:317-326) is network I/O. It is a `transport` parameter that answers with a body or fails with a message. Its timeout, redirects and status handling are not modelled. `ProcessItemOutcome` states what the item does with each possible answer.
- The diagnostic fields (nodes/Kroki/Kroki.node.ts:332-347, 375-383) are left out of the output record: `bodyType`, `bodyConstructor`, `bodyLength`, `isBuffer`, `firstBytes`, `startsWithPNG`, `url`, `diagramLength` and `debug`. They describe the response and do not influence anything else.
- Host calls (`getInputData`, `getNodeParameter`, `continueOnFail`, `getNode`) are inputs. Items arrive as a sequence of parameter records, with `customServerUrl` "" when unset, plus a boolean policy flag.
- `NodeOperationError` and the `context.itemIndex` mutation (nodes/Kroki/Kroki.node.ts:402-406) become `Aborted(itemIndex, message)`. A foreign error without a context is wrapped by the node; the model keeps only its message and index, not the wrapping object.
- The request options other than method, url, body, headers and timeout are not modelled, in particular `encoding: null` (nodes/Kroki/Kroki.node.ts:325), which asks for a raw Buffer; the model's `Body` lets the answer be a Buffer, a string or another value all the same.
- `async`/`await` are not modelled: items are processed strictly one after another.
- The returned `[returnData]` is the single collection `Completed(records)`; the outer one-element array is not modelled.
- Kroki.ResolveTimeout: a non-numeric or NaN timeout (also falsy in JavaScript) is not modelled; the option is an optional integer.
- Strings are sequences of Unicode scalar values. JavaScript strings holding lone UTF-16 surrogates, which `Buffer.from` replaces with U+FFFD, are not modelled.
- `String.prototype.trim` and regular-expression `.` are modelled on code points, with the ECMAScript white-space and line-terminator characters (tab, vertical tab, form feed, space, no-break space, the Unicode space separators, U+FEFF, LF, CR, U+2028, U+2029).
