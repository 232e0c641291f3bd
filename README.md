# Gemini relay: a Dafny model

The system is a small web relay in front of Google's Gemini model. Its
server has four POST routes. `/generate-text` takes a prompt. The other
three take an uploaded image, document or audio file and an optional
prompt. Each route checks its input, sends the prompt and the file to
`gemini-2.5-flash`, and answers with `{success, text}` or `{success: false, error}`.
Its browser client keeps a current mode and the uploaded files, builds a
multipart request for the mode, and renders the model's reply through a
chain of regular-expression replacements (`formatOutput`).

Modules:

- `Wrappers`: `Option` and `Result`.
- `Base64`: the encoding the server applies to an uploaded buffer
  (`buffer.toString("base64")`), the standard alphabet with `=` padding of
  section 4 of RFC 4648, together with a decoder, so that the round trip
  can be stated.
- `Relay`: the four route handlers. They are one function, `Relay.Handle`,
  over a per-route configuration (`Relay.Config`) that holds the file
  field, whether a prompt is required, the default prompt and the two error
  strings. The model call is a parameter: its `Outcome` is either the
  generated text or a failure with a message.
- `Markup`: `formatOutput`, each global `.replace` as a left-to-right
  scan that follows the JavaScript regular-expression semantics of its
  pattern. This covers the greedy `[^x]+` runs, the optional `(\w+)?`
  language tag and the lazy fenced-code body.
- `Client`: the client's request construction (`generate`), the keyboard
  shortcuts, and the class `CommandCenter` with the fields `currentMode`
  and `files`, which `switchMode` and `handleFile` update in place. An
  undefined mode is `None`. A JavaScript `null` or missing file slot is
  `None`.
- `EndToEnd`: the two sides composed. A request the client builds arrives
  at the route its endpoint names, with the fields that express and multer
  extract from it. The browser's multipart/form-data encoding is part of
  this step: line breaks in a text field are sent as CRLF, and a file
  without a type is sent as `application/octet-stream`. multer skips a file
  part whose file name is empty. For each of the four modes, and for a
  prompt within multer's field-size limit, a request reaches the server
  exactly when the client does not throw. It is then accepted with the
  client's own prompt, as the browser sends it, unless the stored file has
  an empty name, in which case the file route rejects it. The server's
  default prompts are therefore never reached from this client, and the
  uploaded bytes reach the model intact. With an undefined mode the client
  posts an empty form, which the server rejects.

Truthiness follows JavaScript. `!prompt` holds for a missing field and for
the empty string, and `error.message || fallback` falls back on an empty
message.

The image route has no server-side default prompt: `index.js:54` rejects a
request without one, and "Describe this image" exists only as the client's
fallback (`public/app.js:137`). The document and audio defaults are the
strings of `index.js:94` and `index.js:132`, with their final period.

## Model

| member | source | states |
|---|---|---|
| Relay.MissingInput | index.js:26-130 | The text route rejects exactly when the prompt is missing or empty. The image route rejects when the prompt is missing or empty or there is no file. The document and audio routes reject exactly when there is no file (lines 26, 54, 90, 128). |
| Relay.Config | index.js:23-160 | Exactly the three file routes take a file, the image route under the field `image`, the document route under `document` and the audio route under `audio` (the `upload.single` names of index.js:50, 86 and 124), never under `prompt`. A route requires a prompt exactly when it has no default prompt, and every default prompt and error string is non-empty. |
| Relay.Rejection | index.js:27-129 | A rejection is status 400 whose body holds only `error`, with the route's own message: "Prompt is required", "Prompt and image are required", "Document file is required" or "Audio file is required". |
| Relay.ActivePrompt | index.js:94-132 | A non-empty prompt is used as given. Otherwise the document route uses "Please analyze and summarize this document." and the audio route uses "Please transcribe and provide a summary of this audio." Only those two routes have a default. |
| Relay.BuildPayload | index.js:59-144 | The model is always `gemini-2.5-flash`. The text route sends the prompt alone. A file route sends exactly two parts: the prompt, then inline data that is the base64 encoding of the uploaded buffer (`buffer.toString("base64")`), decodes back to that buffer and has length 4·⌈n/3⌉, with the MIME type multer reported passed through unchanged. |
| Relay.MapOutcome | index.js:35-158 | Success is 200 with `{success: true, text}` and the model's text unchanged. Failure is 500 with `success: false` and the failure message, or the route's fallback ("Failed to generate text", "Failed to generate text from image", "Failed to analyze document", "Failed to process audio") when the message is empty. |
| Relay.Handle | index.js:23-160 | The status is always 200, 400 or 500. The status is 400 exactly when input is missing, and then the response is the route's rejection and the model is not called. Otherwise the model is called exactly once, with the payload built from the active prompt, and the response is the mapped outcome. The status is 200 exactly when input is present and the call succeeds. |
| Base64.CharSextet | index.js:61 | A character has a sextet value exactly when it belongs to the base64 alphabet. That value is below 64, and encoding it gives back the character. |
| Base64.SextetRoundTrip | index.js:61 | Decoding the character of every value below 64 gives back that value. |
| Base64.EncodeLength | index.js:61 | The encoding of n bytes has length 4·⌈n/3⌉, a multiple of 4. |
| Base64.Encode | index.js:61 | Every character of the encoding is in the base64 alphabet or is `=`, and `=` appears exactly in the last (3 − n mod 3) mod 3 positions. |
| Base64.Octets | index.js:61 | Regrouping 6-bit values into octets gives 3 octets per full group of four and one fewer octet than values in a final short group. |
| Base64.Decode | index.js:61 | A string whose length is not a multiple of 4 does not decode. A string that decodes has only alphabet characters before its trailing padding, and decodes to 3 octets per four characters, less one per padding character. |
| Base64.ValuesOfChars | index.js:61 | Reading back the characters of a sequence of sextets gives those sextets. |
| Base64.OctetsOfSextets | index.js:61 | Regrouping the sextets of a byte sequence into octets gives back the bytes. |
| Base64.RoundTrip | index.js:61 | Decoding the encoding of any byte sequence gives back that byte sequence. |
| Base64.TestVectorEmpty | index.js:61 | The empty input encodes as the empty string (section 10 of RFC 4648). |
| Base64.TestVectorF | index.js:61 | "f" encodes as "Zg==" (section 10 of RFC 4648). |
| Base64.TestVectorFo | index.js:61 | "fo" encodes as "Zm8=" (section 10 of RFC 4648). |
| Base64.TestVectorFoo | index.js:61 | "foo" encodes as "Zm9v" (section 10 of RFC 4648). |
| Markup.NewlinePass | public/app.js:194 | No newline is left. A string without a newline is unchanged. |
| Markup.FormatOutput | public/app.js:188-195 | The rendered HTML never contains a newline character. |
| Markup.FenceMatch | public/app.js:190 | A match of ```` /```(\w+)?\n([\s\S]*?)```/ ```` at the start of the text: three backticks, a run of word characters, a newline, then the first closing fence after it. When there is an opening fence but no match, every newline that is followed by a closing fence is preceded by a non-word character after the opening fence. |
| Markup.DelimitedMatch | public/app.js:191-193 | A match of ``/`([^`]+)`/`` (delimiter a backtick) or `/\*([^*]+)\*/` (delimiter a star) at the start of the text ends at the first delimiter after a non-empty run. When the text starts with the delimiter and does not match, no later delimiter closes a run free of it. |
| Markup.BoldMatch | public/app.js:192 | A match of `/\*\*([^*]+)\*\*/` at the start of the text: `**`, a non-empty run without `*`, then `**`. When the text starts with `**` and does not match, no later `**` closes a run free of `*`. |
| Markup.FencedPass | public/app.js:190 | The fenced-code replacement leaves a string without three consecutive backticks unchanged. |
| Markup.InlineCodePass | public/app.js:191 | The inline-code replacement leaves a string without a backtick unchanged. |
| Markup.BoldPass | public/app.js:192 | The bold replacement leaves a string without `*` unchanged. |
| Markup.ItalicPass | public/app.js:193 | The italic replacement leaves a string without `*` unchanged. |
| Markup.FormatOutputPlain | public/app.js:189-194 | A string with no backtick, `*` or newline is rendered unchanged. |
| Markup.FormatOutputBold | public/app.js:192-193 | `**x**` renders as `<strong>x</strong>` for non-empty x without `*`, backtick or newline. Because bold runs before italic, no `<em>` appears. |
| Markup.FormatOutputCode | public/app.js:191 | `` `x` `` renders as `<code>x</code>` for non-empty x without `*`, backtick or newline. |
| Markup.FormatOutputItalic | public/app.js:193 | `*x*` renders as `<em>x</em>` for non-empty x without `*`, backtick or newline. The bold pass leaves it alone. |
| Markup.BoldPassAfterLastStar | public/app.js:192 | The bold pass leaves a string whose only `*` is its last character unchanged. |
| Markup.FencedPassBlock | public/app.js:190 | The fenced-code pass takes ```` ```lang\nx``` ```` to `<pre><code>x</code></pre>`, for a language tag of word characters (possibly empty) and a body without a backtick. |
| Markup.FormatOutputFence | public/app.js:190-194 | The whole chain renders ```` ```lang\nx``` ```` as `<pre><code>x</code></pre>` when x has no backtick, `*` or newline. The tags themselves survive the later passes. |
| Client.TrimStart | public/app.js:123 | Drops exactly the leading run of JavaScript white space. The result is a suffix of the input that does not start with white space. |
| Client.TrimEnd | public/app.js:123 | Drops exactly the trailing run of JavaScript white space. |
| Client.Trim | public/app.js:123 | `s.trim()` is empty exactly when s is all white space (JavaScript's white space and line terminators). |
| Client.IsJsWhitespace | public/app.js:123 | The characters `String.prototype.trim` removes: tab, LF, VT, FF, CR, space, the Unicode space separators, LS, PS and the byte-order mark. |
| Client.BuildRequest | public/app.js:118-156 | In text mode, an all-white-space prompt throws "Please enter a prompt". Otherwise the form is exactly `[prompt]` to `/generate-text`. In image, document and audio mode, a missing stored file throws "Please upload an image", "Please upload a document" or "Please upload an audio file", and a stored file always gives a request: exactly `[file, prompt]` to the mode's endpoint, where the prompt is the field's value or the client default when the field is empty. Only the four modes can throw. Any other mode posts an empty form to `/generate-text`. |
| Client.JsLess | public/app.js:222 | JavaScript's `<` on strings: lexicographic by character, a proper prefix first. |
| Client.JsLessTotalOrder | public/app.js:222 | The string order is strict and total: exactly one of a < b, a = b and b < a holds. |
| Client.DigitKeyGuard | public/app.js:222 | The guard `key >= '1' && key <= '4'` as two string comparisons. |
| Client.DigitKeyGuardExact | public/app.js:222 | The string comparison `key >= '1' && key <= '4'` admits exactly the keys that start with 1, 2 or 3, and the key "4". |
| Client.DigitRun | public/app.js:224 | The leading run of decimal digits, as `parseInt` reads it. |
| Client.DecimalValue | public/app.js:224 | The value of a string of decimal digits is below 10 to the power of its length. |
| Client.LeadingInt | public/app.js:224 | `parseInt` of a one-digit key is that digit. In general it is at least the first digit. |
| Client.LeadingBound | public/app.js:224 | A digit string is worth at least its first digit, and exactly that digit when it has one digit. |
| Client.ModeAt | public/app.js:223-224 | `modes[i]` is defined exactly for 0 ≤ i < 4, and is then the i-th of text, image, document, audio. |
| Client.KeyDown | public/app.js:216-225 | Ctrl/Cmd+Enter, and nothing else, triggers generate. A mode switch happens exactly when the digit guard holds outside a text field. Digit keys 1 to 4 select text, image, document and audio. The only keys that switch to an undefined mode have a second digit ("10", "35"). The Enter shortcut never also switches mode. |
| Client.InitialFiles | public/app.js:4-8 | The file slots are exactly `image`, `document` and `audio`, and all are empty. |
| Client.CommandCenter.constructor | public/app.js:2-8 | A new page is in text mode with the three file slots empty. |
| Client.CommandCenter.SwitchMode | public/app.js:32-33 | Sets the current mode. The files are unchanged. |
| Client.CommandCenter.HandleFile | public/app.js:81-82 | Stores the file in its slot. The other slots and the mode are unchanged. |
| Client.CommandCenter.OnKeyDown | public/app.js:216-225 | Switches mode as KeyDown decides, leaves the mode unchanged otherwise, never touches the files, and reports whether generate runs. |
| Client.CommandCenter.PrepareRequest | public/app.js:117-157 | Returns the request (or the thrown message) for the current mode and files. |
| Client.ImageSession | public/app.js:130-137 | On a fresh page, pressing 2 and generating fails with "Please upload an image". After an upload, the request goes to `/generate-from-image` and carries that file first. |
| EndToEnd.RouteOf | index.js:23-124 | Each endpoint the server mounts resolves to its route, and a resolved route mounts that endpoint. |
| EndToEnd.NormalizeLineBreaks | public/app.js:128-155 | A text field is sent with every lone CR and lone LF turned into CRLF. It stays empty exactly when it was empty, and text without CR or LF is sent unchanged. |
| EndToEnd.NormalizeIdempotent | public/app.js:128-155 | Normalising twice is normalising once: text whose line breaks are already CRLF is sent unchanged. |
| EndToEnd.NormalizedLineFeeds | public/app.js:128-155 | In the text sent, every LF follows a CR. |
| EndToEnd.PartType | public/app.js:136-154 | A file part's Content-Type is never empty: a file without a type is sent as `application/octet-stream`, any other file with its own type. |
| EndToEnd.FormText | index.js:24 | The prompt express reads is a text field of that name in the form, with its line breaks as the browser sends them, and is absent only when the form has no such text field. |
| EndToEnd.FormUpload | index.js:52 | The file multer reads is a file field of that name with a non-empty file name, with its bytes and the Content-Type its part was sent with. It is absent exactly when every file field of that name has an empty file name, or there is none. |
| EndToEnd.Deliver | index.js:23-160 | A request reaches a handler exactly when its endpoint is mounted. |
| EndToEnd.Accepted | index.js:54-68 | A route given a non-empty prompt, and a file where it needs one, does not answer 400. It calls the model with that prompt, and for file routes with the base64 encoding of the file's exact bytes and its MIME type. |
| EndToEnd.FileDelivery | index.js:50-52 | A file route receives the client's prompt field as `req.body.prompt`, with its line breaks as sent, and, when the file has a name, its file field as `req.file`, with the file's bytes and its part's Content-Type. A file with an empty name gives no `req.file`. |
| EndToEnd.Submit | public/app.js:117-162 | No request is sent exactly when the client throws. |
| EndToEnd.SubmitText | public/app.js:123-128 | A text request reaches the server exactly when the prompt is not all white space. It is then accepted, and the model gets the user's prompt with its line breaks as sent. |
| EndToEnd.SubmitImage | public/app.js:131-137 | An image request reaches the server exactly when an image is stored. An image with an empty file name is rejected with "Prompt and image are required" and no call. Otherwise the request is accepted, and the model gets the field's prompt, or "Describe this image" when the field is empty, with its line breaks as sent, and the base64 of the stored image's bytes with its part's Content-Type. |
| EndToEnd.SubmitDocument | public/app.js:140-146 | A document request reaches the server exactly when a document is stored. A document with an empty file name is rejected with "Document file is required" and no call. Otherwise it is accepted with the client's prompt or default, so the server's own default is never used, and the model gets the base64 of the stored document's bytes with its part's Content-Type. |
| EndToEnd.SubmitAudio | public/app.js:149-155 | An audio request reaches the server exactly when a recording is stored. A recording with an empty file name is rejected with "Audio file is required" and no call. Otherwise it is accepted with the client's prompt or default, and the base64 of the stored recording's bytes with its part's Content-Type. |
| EndToEnd.SubmitUnknownMode | public/app.js:118-157 | With an undefined mode, the client posts an empty form to `/generate-text`. The server answers 400 "Prompt is required" without calling the model. |

## Left out

- Express, cors, multer and static-file set-up, `app.listen`, dotenv and the API key (index.js:1-21, 162-165). These are framework plumbing.
- multer's own errors are not modelled. `upload.none()` rejects a file on the text route, and `upload.single` rejects a file under another field name; the client never sends either, as `Client.BuildRequest` shows. `multer()` is created without limits (index.js:13), so its parser's defaults apply: a text field longer than 1 MiB makes the request fail with a 500 before the route handler runs. The client does not bound its prompts, and the model assumes every prompt is within that limit.
- The request body is modelled as strings only. A duplicated `prompt` field, which express would turn into an array, is not modelled: the client never sends one.
- The Gemini call is the `Outcome` parameter. Its `response.text` is taken to be a string, although the library may leave it undefined. `Handle` takes an outcome even on the 400 path, where it is ignored.
- `console.error` logging. It has no effect on the response.
- All DOM work: event binding, class toggles, `innerHTML`, `FileReader` previews, drag and drop, and the copy button. Also `fetch`, `await`, JSON parsing of the reply, and the `performance.now` timing. These are UI, network and floating-point display.
- Characters are Dafny `char` (Unicode scalar values), not UTF-16 code units.
- Client.JsLess: compares code points, not UTF-16 code units. The two orders differ only above U+FFFF, for characters no key name starts with.
- Client.IsJsWhitespace: lists the Unicode space separators as fixed at the time of writing, not the engine's live Unicode table.
- Client.BuildRequest: the file's name is carried inside `ClientFile`. Only whether it is empty matters to the server, as `EndToEnd.FormUpload` models; its other effects on the part header (quoting, escaping) are not modelled.
- Deliver: resolves an endpoint by exact comparison. Express 4 also matches paths case-insensitively, with a trailing slash and with a query string; the client only ever posts the four exact paths.
- FormText: the multipart encoding also normalises line breaks in field names and escapes quotes in them; every field name the client sends is a constant without either.
