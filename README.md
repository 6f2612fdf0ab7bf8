# http-editor text engine in Dafny

This project models the text-processing core of the http-editor VS Code
extension and proves properties about it. The modelled pieces are:

- **The `.http` document parser.** `HttpFileParser.parse` is a one-pass state machine over the `\n`-separated lines of a document. It handles `@name = value` declarations, `###` separators with the `@PRE-AUTH` marker, method lines, headers and bodies. Its helpers are modelled too: `isMethodLine`, `parseMethodLine`, `parseHeaderLine`, `parseVariable`, `extractRouteFromUrl`, `finalizeRequest`, `createEmptyRequest` and `detectBodyType`.
- **The serializer** (`serialize`), which writes a request list back as a document.
- **The credential sanitizer** (`sanitizePreAuthBody`), which blanks credential values before a pre-auth request is saved.
- **The import parser.**
  - The dispatch of `ImportParser.parse`.
  - The curl command reader `parseCurl`, with its regular expressions matched as an ECMAScript engine matches them.
  - `normalizeCurlDataValue` and `isUrlEncodedFromHeaders`.
  - The placeholder-preserving percent encoder `encodePreservingPlaceholders`, over an `encodeURIComponent` / `decodeURIComponent` model with UTF-8 and upper-case hex escapes.
  - The import `detectBodyType`.
  - The depth-first walk of a Postman collection, with its request counter.
- **The curl exporter.** The POSIX and PowerShell command builders.
- **The request logic of the webview script**, with its DOM reads and writes removed:
  - `smartEncodeURIComponent`, `replaceVariables` and `countVariableUsage`;
  - `replacePreAuthCredentials`, `buildCurlCommandFromRequest` and `findPreAuthRequest`;
  - query-string composition: `buildUrlWithQueryParams`, and the query part of `updateCurrentRequest` and `selectRequest`;
  - `updateBodyType` and `updateContentTypeHeader`;
  - the request-list session: `addNewRequest`, `deleteRequest`, `handleVariablesUpdate` and `ensureAuthVariableEmpty`.
- **The configuration lookups** `getEnvironment`, `getUser` and `getLocale`, and the environment/user variable merge `getMergedVariables`.

JavaScript plain objects (headers, variables) are modelled as association lists (`Dicts.Dict`) kept in insertion order:

- `Put` overwrites a key in place, or appends it.
- `Assign` is `Object.assign`.
- `Get` reads the first entry with the key.

Regular expressions with the global flag are modelled as a leftmost-match search that resumes at the end of each match. Each pattern gets its own matcher function, so the code's edge cases can be stated:

- the greedy and lazy runs;
- the `i` flag, compared as ASCII case folding;
- the `\b` boundary.

Calls into code outside the core become parameters (the `Host` datatype in `Types`):

- `JSON.parse` used as a test is the predicate `isJson`.
- `new URL(url)` becomes `urlPath`. It returns the pathname plus search, or `None` where the constructor throws.
- The Postman import receives the decoded collection from a `decode` parameter.

The request ids that the source builds from `Date.now()` and `Math.random()` are natural numbers:

- The parser numbers requests with a counter.
- The importer uses its `requestCounter`, which restarts at 1 on each `parse` call.
- `addNewRequest` takes one more than the largest id in use.

Source style is kept:

- Where the source loops and mutates, the model has a method with a loop, proved equal to a specification function: `HttpParser.Parse`, `Serializer.Serialize`, `Sanitizer.SanitizePreAuthBody`, `CurlExporter.Export`, `Placeholders.EncodePreservingPlaceholders` and `SmartEncoding.SmartEncodeURIComponent`.
- Where the source mutates object state, the model has a class: `ImportParser.ImportParser` with its request counter, `WebviewSession.Session` with the request list, the current id and the session variables, and `ConfigManager.ConfigManager`.
- The lemmas are stated about the specification functions.

## Model

| member | source | states |
|---|---|---|
| HttpParser.Parse | src/parser/httpParser.ts:10-178 | The line loop of `parse`, with its local state (open request, `inBody`, body lines, pending comments, global variables, emitted requests), computes exactly `Document(host, content)`. The lemmas below characterise that result. |
| HttpParser.ParseLine | src/parser/httpParser.ts:19-160 | One iteration of the loop equals the step function `Step`: declarations, comments, method lines, then the in-request branches. |
| HttpParser.ParseComment | src/parser/httpParser.ts:37-97 | The comment branch equals `CommentLine`: a `###` separator flushes and opens a request; any other comment is pending outside a request and dropped inside one. |
| HttpParser.ParseRequestLine | src/parser/httpParser.ts:136-159 | The in-request branch equals `RequestLine`: a header before the body, the blank line that opens the body, or a body line. |
| HttpParser.Finalize | src/parser/httpParser.ts:320-346 | The finalized request always has a non-empty name. An existing name is kept. URL, headers and body are unchanged. The variables are the document's globals. |
| HttpParser.ExtractRouteFromUrl | src/parser/httpParser.ts:288-315 | The route is empty exactly when the URL is empty. |
| HttpParser.DetectBodyTypeCases | src/parser/httpParser.ts:407-458 | The full table, each outcome as an if-and-only-if. The lower-cased Content-Type decides first, in the order json, urlencoded, xml (`application/xml` or `text/xml`), html, javascript. html and javascript come only from the header. Without a deciding header the result is the body sniffing's. No header and a blank body give text. |
| HttpParser.SniffBodyCases | src/parser/httpParser.ts:438-457 | The full table on the trimmed body, each outcome as an if-and-only-if. json exactly when it opens with `{` or `[` and passes the JSON test. Otherwise xml exactly when it opens with `<`, then urlencoded exactly when it holds both `=` and `&`, else text. Never html or javascript. |
| HttpParserProps.MethodLineKeyword | src/parser/httpParser.ts:243-245 | A method line starts with one of the seven methods, ignoring case, followed by white space. |
| HttpParserProps.MethodLineShape | src/parser/httpParser.ts:28-37 | A method line is never a variable line or a comment, so the branch order of the loop cannot divert it. |
| HttpParserProps.MethodLineParts | src/parser/httpParser.ts:250-256 | `parseMethodLine` gives one of the seven methods, upper-cased. When the line does not end in white space, the URL is a non-empty token without white space. |
| HttpParserProps.MethodLineRoundTrip | src/parser/httpParser.ts:243-256 | `METHOD url` with a white-space-free URL is a method line and parses back to exactly that method and URL. |
| HttpParserProps.HeaderLineRoundTrip | src/parser/httpParser.ts:261-267 | `key: value`, with trimmed parts and no `:` in the key, parses back to `(key, value)`. |
| HttpParserProps.VariableLineQuoted | src/parser/httpParser.ts:272-283 | `@name = "v"` or `@name = 'v'` declares `v`: one layer of matching quotes is stripped, whatever `v` holds. |
| HttpParserProps.VariableLineRoundTrip | src/parser/httpParser.ts:272-283 | `@name = value` (trimmed, no `=` in the name, no wrapping quotes on the value) is a variable line that parses back to `(name, value)`. |
| HttpParserProps.VariableLineOnlyDeclares | src/parser/httpParser.ts:28-34 | A variable line, even inside a body, only stores its declaration (when the name is non-empty). Nothing else in the state changes. |
| HttpParserProps.CommentInRequestDropped | src/parser/httpParser.ts:86-88 | Inside a request, a `#` comment that is not a separator leaves the state unchanged. |
| HttpParserProps.SeparatorPreAuth | src/parser/httpParser.ts:41-83 | A `###` line opens a fresh request with no URL, outside any body. The request is pre-auth exactly when the comment text is `@PRE-AUTH`, compared case-sensitively. It then carries the enabled pre-auth config. |
| HttpParserProps.MethodLineStep | src/parser/httpParser.ts:100-129 | Only the first method line of a block sets the method and the URL. A later one changes nothing. The name falls back to the block's name, then the pending comments joined by a space, then the `METHOD route` text. |
| HttpParserProps.HeaderLineStep | src/parser/httpParser.ts:136-148 | Before the body, a `:` line is stored as a header only when key and value are non-empty. A repeated key overwrites. |
| HttpParserProps.BodyStartStep | src/parser/httpParser.ts:151-154 | The first blank line after the URL switches to body mode and changes nothing else. |
| HttpParserProps.BodyLineStep | src/parser/httpParser.ts:157-159 | In the body, any other line is appended as written, untrimmed. |
| HttpParserProps.StepGood | src/parser/httpParser.ts:19-160 | Every loop step preserves the parser invariant: emitted requests are well formed and typed text, and the open draft is consistent. |
| HttpParserProps.RunGood | src/parser/httpParser.ts:19-160 | The invariant holds after any sequence of lines. |
| HttpParserProps.StepOpened | src/parser/httpParser.ts:100-116 | After a step, a request is open (or was emitted) exactly when one was before or the line is a method line. |
| HttpParserProps.RunOpened | src/parser/httpParser.ts:163-175 | A request is emitted exactly when some line is a method line. |
| HttpParserProps.RunGlobals | src/parser/httpParser.ts:28-34 | After the loop, the globals are all declarations of the document assigned in order, so a later one overwrites an earlier one. |
| HttpParserProps.DocumentWellFormed | src/parser/httpParser.ts:163-175 | `parse` never returns an empty list. Every request has a URL, one of the seven methods and a name. It is pre-auth exactly when it has the pre-auth config. Only the last request can have a sniffed body type; the others are text. |
| HttpParserProps.DocumentDefault | src/parser/httpParser.ts:173-175 | A document without a method line gives exactly one default request: "New Request", GET `https://api.example.com`. |
| HttpParserProps.DocumentVariables | src/parser/httpParser.ts:13-34 | Every request holds the same variables: every declaration of the document, including those after it. |
| Serializer.Serialize | src/parser/httpParser.ts:183-238 | The loops of `serialize` compute exactly `Serialized(requests)`: the merged variable block, then one block per request. A pre-auth body goes through the sanitizer as written (`Sanitizer.Sanitized`), so a `"password": "secret"` field is saved as it is (see Findings). |
| Serializer.AppendRequest | src/parser/httpParser.ts:204-236 | One request's block is appended to the content so far: the heading, the method line, the filled headers, and the body, blanked by the sanitizer as written for a pre-auth request. |
| Serializer.AppendHead | src/parser/httpParser.ts:206-213 | The heading line and the method line are appended. |
| Serializer.AppendHeaders | src/parser/httpParser.ts:216-220 | One line per header with non-empty key and value is appended, in order. |
| Serializer.BodySection | src/parser/httpParser.ts:231-234 | A body is written exactly when its trimmed text is non-empty. |
| Serializer.VariableLineList | src/parser/httpParser.ts:188-201 | One declaration line per merged variable. |
| SerializerProps.SerializedVariableBlock | src/parser/httpParser.ts:188-201 | The document starts with `@` exactly when the merged variables are non-empty. Otherwise it is just the request blocks. |
| SerializerProps.MergedVariablesLastWins | src/parser/httpParser.ts:188-196 | In the merged variable map, a key's value comes from the last request that declares it. |
| SerializerProps.VariableLinesRoundTrip | src/parser/httpParser.ts:198-200 | Parsing the written declaration lines gives back exactly the merged variables. |
| SerializerProps.SerializedVariablesRoundTrip | src/parser/httpParser.ts:183-201 | Splitting a serialized document into lines and running the parser over its variable block reproduces the merged variables. |
| SerializerProps.PreAuthHeadingRoundTrip | src/parser/httpParser.ts:206-208 | The `### @PRE-AUTH` heading written for an enabled pre-auth request parses back to a pre-auth request with the enabled config. |
| SerializerProps.NameHeadingRoundTrip | src/parser/httpParser.ts:209-210 | The `### name` heading parses back to a request with that name. |
| SerializerProps.HeaderLinesRoundTrip | src/parser/httpParser.ts:216-220 | Running the parser over the written header lines stores exactly those headers. |
| SerializerProps.HashesDropped | src/parser/httpParser.ts:39 | Stripping the leading hashes of a `###` heading gives back its text. |
| Sanitizer.SanitizePreAuthBody | src/parser/httpParser.ts:366-402 | The loop over the credential keys applies every quoted pattern for each key, then the form pattern. It computes `Sanitized(body)` with the patterns as written, which is what `serialize` calls, or `SanitizedIntended(body)` with the intended ones. An empty body comes back empty. |
| Sanitizer.Sanitized | src/parser/httpParser.ts:366-402 | Sanitizing never lengthens the body. The passes only remove value text (`SanitizerProps.ScanHit`, `SanitizerProps.RunMiss`). |
| Sanitizer.SanitizeUntouched | src/parser/httpParser.ts:366-402 | A body without quotes or `=` is returned unchanged. |
| Sanitizer.QuotedPairBlanked | src/parser/httpParser.ts:382-392 | `"key":"value"`, with the key in any case, keeps its key text and loses its value. |
| Sanitizer.FormPairBlanked | src/parser/httpParser.ts:395-399 | `key=value` for a credential key keeps `key=` and loses the value, up to `&`, CR or LF. |
| Sanitizer.SpacedPairKept | src/parser/httpParser.ts:382-392 | As written, a quoted credential with a space after the colon (`"password": "secret"`) is not matched, so the secret stays. |
| Sanitizer.SpacedPairBlanked | src/parser/httpParser.ts:382-392 | The intended pattern, with real white-space classes, blanks `"password": "secret"` to `"password": ""`. |
| Sanitizer.SanitizedIntended | src/parser/httpParser.ts:366-402 | The sanitizer with the intended patterns never lengthens the body. `SanitizeUntouched` also covers it. |
| SanitizerProps.ScanHit | src/parser/httpParser.ts:382-399 | Where a credential pattern matches, the replace drops only the value text. The text before the match, the key, the colon and the closing quote stay, and the scan goes on after the match. |
| SanitizerProps.RunMiss | src/parser/httpParser.ts:382-399 | A stretch of the body where a pattern matches nowhere is copied unchanged. With `ScanHit`, all text outside the matched value spans is kept. |
| SanitizerProps.CutOnce | src/parser/httpParser.ts:382-399 | A body that a pattern matches exactly once loses just that match's value span, and nothing else. |
| SanitizerProps.ReplaceAllKept | src/parser/httpParser.ts:382-399 | A pass can only remove text. If its result is not shorter than the body, it is the body itself. |
| SanitizerProps.KeyPassesKept | src/parser/httpParser.ts:380-393 | If the quoted passes over all keys do not shorten the body, every single pass leaves it as it is. |
| SanitizerProps.SanitizedFixedPasses | src/parser/httpParser.ts:366-402 | A body the sanitizer returns unchanged is a fixed point of each quoted pass and of the form pass. |
| SanitizerProps.AbsentLetter | src/parser/httpParser.ts:382-392 | A key holding a letter the body lacks, in either case, matches nowhere, so its pass leaves the body as it is. |
| SanitizerProps.QuotedHit | src/parser/httpParser.ts:382-392 | A gap-free `"key":"value"` is matched from its opening quote to the closing quote of its value. |
| SanitizerProps.SanitizedNotIdempotent | src/parser/httpParser.ts:366-402 | The sanitizer is not idempotent, with the patterns as written or as intended. `"pass":"user":""user":"x"` becomes `"pass":"":""user":"x"`. The `pass` pass blanks the value `user`, and the closing quote left behind opens a new `"user":"x"` pair, which a second run blanks. |
| ImportParser.ImportParser.Parse | src/utils/importParser.ts:50-71 | `parse` resets the counter and computes `Imported`: Postman for a `{` payload, one curl request for a `curl` payload, otherwise an error. |
| ImportParser.CurlGivesOne | src/utils/importParser.ts:63-65 | A payload starting with `curl` in any case yields exactly one request, with id 1. |
| ImportParser.JsonPath | src/utils/importParser.ts:55-59 | A `{` payload that decodes yields the collection's requests, numbered from 1. |
| ImportParser.InvalidJsonRefused | src/utils/importParser.ts:55-62 | A `{` payload that does not decode fails with "Invalid JSON format". |
| ImportParser.UnsupportedRefused | src/utils/importParser.ts:66-70 | Any other payload fails with the unsupported-format error. |
| ImportParser.ImportIds | src/utils/importParser.ts:45-51 | The k-th imported request has id k + 1 on every call: the counter restarts. |
| ImportParser.ImportParser.ParsePostmanCollection | src/utils/importParser.ts:76-84 | Computes the depth-first walk of the collection. The counter advances by the number of requests. |
| ImportParser.ImportParser.ExtractRequestsFromItems | src/utils/importParser.ts:89-109 | The recursive walk appends `Walk(items)` to the shared list. The counter advances by as many requests. |
| ImportParser.ImportParser.ExtractItem | src/utils/importParser.ts:94-108 | One item: a folder recurses with the extended prefix; a request item is parsed. |
| ImportParser.ImportParser.ParsePostmanRequest | src/utils/importParser.ts:114-184 | Increments the counter and builds `RequestOf(item)` with the new id. |
| ImportParser.ImportParser.ParseCurl | src/utils/importParser.ts:235-317 | Increments the counter and builds `CurlRequest(command)`: the method, URL, headers and body read from the command. |
| ImportParser.ReadHeaders | src/utils/importParser.ts:268-289 | The `exec` loop over `-H` arguments computes `CurlHeaders(cmd)`. |
| ImportParser.ReadDataSegments | src/utils/importParser.ts:291-300 | The `exec` loop over data flags collects the segments in command order. |
| Postman.WalkIds | src/utils/importParser.ts:89-109 | The walk numbers requests consecutively from the counter, in depth-first document order. |
| Postman.WalkNames | src/utils/importParser.ts:97-101 | Every request under a folder has a name starting `Folder / `. |
| Postman.WalkOne | src/utils/importParser.ts:94-108 | A folder's requests are its children's walk under the extended prefix; a request item gives one request. |
| Postman.Enabled | src/utils/importParser.ts:163-164 | The enabled entries are the entries not disabled, in order. There are none exactly when every entry is disabled. |
| Postman.WriteHeadersEnabled | src/utils/importParser.ts:135-142 | Every header written comes from an enabled entry with a key and a value. |
| Postman.FormRoundTrip | src/utils/importParser.ts:162-172 | The form body splits at `&` into one pair per enabled field, in order. Each pair decodes back to that field's key and value. |
| Postman.PairRoundTrip | src/utils/importParser.ts:167 | `encode(key)=encode(value)` splits at its one `=`, and both sides decode back. |
| Postman.QueryMark | src/utils/importParser.ts:213-227 | The URL gets `?` and the query exactly when some query parameter is enabled. Otherwise it is the base URL. |
| CurlScan.SearchLeftmost | src/utils/importParser.ts:253-299 | A regex search reports the leftmost match: no match starts before it. |
| CurlScan.StripCurl | src/utils/importParser.ts:247-249 | Removing the `curl` prefix only drops a case-insensitive `curl` and the white space after it, and leaves a suffix of the input. |
| CurlScan.JoinedOneLine | src/utils/importParser.ts:250 | Joining line continuations leaves a one-line command unchanged. |
| CurlScan.RemoveQuotes | src/utils/importParser.ts:265 | The URL keeps no quote character, and a quote-free URL is unchanged. |
| CurlImport.MethodIsUpper | src/utils/importParser.ts:253-256 | The method is GET without a method flag, and is always a non-empty upper-case word. Data flags never change it. |
| CurlImport.UrlIsToken | src/utils/importParser.ts:258-266 | The URL holds no quote. It comes from the URL after the method flag when there is one, else the first bare `http(s)://` token. |
| CurlImport.CurlHeadersGood | src/utils/importParser.ts:268-289 | Every stored header has a trimmed key and a non-empty value, and keys are distinct. |
| CurlImport.NoDataNoBody | src/utils/importParser.ts:302-314 | Without data flags the body is empty and the body type stays text. |
| CurlImport.BodySplitsBack | src/utils/importParser.ts:302-309 | The body splits at its separator (`&` in url-encoded mode, `\n` otherwise) back into the normalized segments, in command order. |
| CurlImport.Normalized | src/utils/importParser.ts:306-308 | One normalized part per data segment. |
| ImportText.UrlencodeRoundTrip | src/utils/importParser.ts:327-350 | A `--data-urlencode` value with `=` becomes a pair that decodes back to the key and value of the trimmed input. |
| ImportText.UrlencodeWholeRoundTrip | src/utils/importParser.ts:327-350 | A `--data-urlencode` value without `=` is encoded with its placeholders kept, and decodes back to the trimmed input. |
| ImportText.DetectBodyTypeCases | src/utils/importParser.ts:378-411 | The full table, each outcome as an if-and-only-if. The lower-cased Content-Type decides first, in the order `application/json`, the form type, any `xml`, any `html`, any `javascript`. Without a deciding header the result is the body sniffing's. |
| ImportText.SniffCases | src/utils/importParser.ts:391-410 | The full table on the trimmed body, each outcome as an if-and-only-if. json exactly when it opens with `{` or `[` and passes the JSON test. Otherwise xml exactly when it opens with `<` (which covers `<?xml`), then urlencoded exactly when it holds both `=` and `&`, else text. A blank body is text. |
| ImportText.HeaderDecides | src/utils/importParser.ts:382-389 | When the content type names a known kind, the body does not matter. |
| ImportText.SniffMatchesParser | src/utils/importParser.ts:391-410 | The importer's body sniffing is the parser's (src/parser/httpParser.ts:438-457). |
| ImportText.ContentTypesAgree | src/utils/importParser.ts:310-313 | The importer's `Content-Type`/`content-type` lookup gives the same text as the parser's, lower-cased. |
| ImportText.ContentTypeOf | src/utils/importParser.ts:319-325 | The content type read is the `Content-Type` header, or else the `content-type` one. |
| Placeholders.EncodePreservingPlaceholders | src/utils/importParser.ts:352-373 | The `exec` loop computes `Preserved(value)`: the literal runs encoded, the `{{…}}` tokens copied. |
| Placeholders.TokensPreserved | src/utils/importParser.ts:352-373 | The output holds exactly the input's `{{…}}` tokens, verbatim and in order. |
| Placeholders.RestoredPreserved | src/utils/importParser.ts:352-373 | Percent-decoding the literal runs of the output restores the input. |
| Placeholders.PiecesPreserved | src/utils/importParser.ts:352-373 | Cutting the output at its tokens gives the input's pieces with each literal run encoded. |
| Placeholders.PlainValue | src/utils/importParser.ts:352-373 | Input with no `{{` is encoded exactly as `encodeURIComponent` would encode it. |
| Placeholders.ExecLeftmost | src/utils/importParser.ts:353-358 | The token search reports the leftmost `{{…}}` token. |
| Uri.DecodeEncode | src/utils/importParser.ts:361-369 | `decodeURIComponent(encodeURIComponent(s)) == s` for every string. |
| Uri.EncodeAlphabet | src/utils/importParser.ts:361-369 | Encoded text holds only unreserved characters, `%` and upper-case hex digits. |
| Uri.EncodeUnreserved | src/utils/importParser.ts:361-369 | Text of unreserved characters is encoded as itself. |
| CurlExporter.Export | src/utils/curlExporter.ts:10-37 | The header loop and join compute the POSIX command. |
| CurlExporter.ExportForWindows | src/utils/curlExporter.ts:42-78 | The header loop and join compute the PowerShell command. |
| CurlExporter.PartsCount | src/utils/curlExporter.ts:10-78 | Both dialects emit `curl`, an optional method flag, the URL, one part per filled header and an optional body part. |
| CurlExporter.PartsUrl | src/utils/curlExporter.ts:19 | The first part is `curl`, and the URL follows the optional method flag. |
| CurlExporter.PartsHeaders | src/utils/curlExporter.ts:22-26 | The header parts are exactly one `-H` per header with non-empty key and value, in order. |
| CurlExporter.MethodFlag | src/utils/curlExporter.ts:14-16 | `-X METHOD` is emitted exactly when the method is not GET. |
| CurlExporter.BodyFlag | src/utils/curlExporter.ts:29-33 | A `-d` part is emitted exactly when the trimmed body is non-empty. |
| CurlExporter.PosixBodyRoundTrip | src/utils/curlExporter.ts:31 | Shell-unquoting the POSIX body argument, with `'` escaped as `'\''`, gives back the body exactly. |
| CurlExporter.PowerShellBodyRoundTrip | src/utils/curlExporter.ts:67-71 | Undoing the backslash escapes of the PowerShell body gives back the body without its CRs. |
| CurlExporter.PowerShellBodySingleLine | src/utils/curlExporter.ts:67-71 | The escaped PowerShell body contains no raw LF or CR. |
| SmartEncoding.SmartEncodeURIComponent | media/webview.js:599-627 | The loops of `smartEncodeURIComponent` compute the function as written: placeholders shielded by `__VAR_i__` markers, encoded, then restored with a first-occurrence replace. On input without `_` this equals the intended encoder (`SmartEncodingProps.SmartEncodeAsWrittenAgrees`), so placeholders are kept and the rest is encoded. |
| SmartEncoding.CollectVariables | media/webview.js:603-611 | The collected placeholders are every `{{\s*\w+\s*}}` match, in order. |
| SmartEncoding.SmartEncodeRestores | media/webview.js:599-627 | The intended encoder keeps every placeholder verbatim and encodes the text between them, and decoding that text restores the input. |
| SmartEncoding.SmartEncodeKeepsPlaceholders | media/webview.js:599-627 | The intended encoder's placeholders are exactly the input's, in order. |
| SmartEncoding.SmartEncodePlain | media/webview.js:619 | Without placeholders the result is `encodeURIComponent(s)`. |
| SmartEncoding.SmartEncodeAsWrittenPlain | media/webview.js:599-627 | As written, the encoder agrees with the intended one on input without placeholders. |
| SmartEncoding.SmartEncodeNoSeparator | media/webview.js:599-627 | The encoded text holds no `&`, `=` or `?`, so query pairs split back. |
| SmartEncoding.SmartEncodeMarkerClash | media/webview.js:599-627 | As written, `__VAR_0{{a}}` becomes `{{a}}VAR_0__`, while the intended encoder returns it unchanged. |
| SmartEncodingProps.SmartEncodeAsWrittenAgrees | media/webview.js:599-627 | On input without `_`, the encoder as written returns exactly what the intended encoder returns. It so inherits `SmartEncodeRestores` and `SmartEncodeKeepsPlaceholders` there: every placeholder is kept verbatim and in order, and the text between them is encoded. |
| SmartEncoding.SmartEncodeAsWrittenNoSeparator | media/webview.js:599-627 | The encoder as written never outputs `&`, `=` or `?`, so the query pairs built from it split back. |
| SmartEncoding.FindFromFirst | media/webview.js:614-625 | The first-occurrence search behind `replace` with a string pattern finds the first occurrence from the start index, and reports none only when there is none. |
| WebviewPatterns.SearchLeftmost | media/webview.js:496 | A global regex search reports the leftmost match: no match starts between the search point and it. |
| WebviewPatterns.TextSegments | media/webview.js:1075-1076 | Cutting a text at the matches of a pattern and joining the pieces gives the text back. |
| WebviewPatterns.ReplaceFixed | media/webview.js:1075-1076 | A global replace whose every match is replaced by itself leaves the text unchanged. |
| WebviewPatterns.MatchesEmpty | media/webview.js:499-502 | `match` finds nothing exactly when the search finds no match. |
| WebviewSession.Session.ReplaceVariables | media/webview.js:1069-1080 | The result is the text with the request variables, overridden by the session variables, substituted in order. An empty text comes back as it is. By `WebviewSubstitution.SubstitutedResolves`, for a text whose `{` characters all belong to placeholders, and for variables with distinct word-character names and `{`-free values, this is one global replace: every occurrence of a known `{{ name }}` becomes its value, and unknown placeholders and the text between placeholders stay. |
| Webview.Resolves | media/webview.js:1069-1080 | With distinct word-character names and `{`-free values, a placeholder becomes its variable's value, or stays when the variable is unknown. |
| Webview.SessionValueWins | media/webview.js:1073-1076 | A session variable overrides a request variable of the same name. A request variable applies when the session has none. An unknown placeholder stays. |
| Webview.SubstitutedUnreferenced | media/webview.js:1069-1080 | A text that names none of the variables comes back unchanged. |
| WebviewSubstitution.SubstitutedResolves | media/webview.js:1069-1080 | For any text whose `{` characters all belong to placeholders, and variables with distinct word-character names and `{`-free values, the passes over the variables equal one global replace: each `{{ name }}` of a known variable, at every occurrence and with any inner spaces, becomes that variable's value; unknown placeholders and all text between placeholders stay. |
| WebviewSubstitution.SubstitutedCascade | media/webview.js:1073-1076 | When a brace lies outside every placeholder, the passes can cascade: `{{{{a}}}}` with `a` set to `x` and `x` set to `v` comes out as `v`, where the one-pass reading gives `{{x}}`. |
| WebviewSubstitution.SubstitutedNestedValue | media/webview.js:1073-1076 | When a value holds a placeholder, the passes can cascade as well: with `u` set to `{{h}}` and `h` set to `v`, the text `{{u}}` comes out as `v`, where the one-pass reading gives `{{h}}`. Such variables have a value with `{`, so they are not well formed. |
| Webview.VariableSelf | media/webview.js:1075-1076 | A variable's placeholder is replaced by its value. |
| Webview.VariableOther | media/webview.js:1075-1076 | Another variable's pattern does not match a placeholder. |
| Webview.CountVariableUsage | media/webview.js:492-521 | The loop computes the usage: 0 without a request, otherwise the placeholder matches in the URL, in each non-empty header value and in the body. |
| Webview.UnusedVariable | media/webview.js:492-521 | A variable with zero usage is referenced nowhere: substituting it leaves URL, header values and body unchanged. |
| Webview.CountZero | media/webview.js:496-518 | A text with no placeholder of the variable is unchanged by its substitution. |
| Webview.ReplacePreAuthCredentials | media/webview.js:1309-1351 | The loop over the JSON patterns, then the two form patterns, computes `Credentials(body)`. |
| Webview.CredentialsFixed | media/webview.js:1309-1351 | A body whose credentials are already templated is unchanged. |
| WebviewCredentials.CredentialsOfBody | media/webview.js:1309-1351 | On `"pass":"user":""user":"x"`, the `user` pass templates the empty `"user":""`, and the `pass` pass then rewrites `"pass":"user"`, up to the closing quote of `user`. The colon after that quote stays. |
| WebviewCredentials.PassDoneNotTemplated | media/webview.js:1309-1351 | In that result, `"user":"x"` is still a `user` match that does not read as its template. |
| WebviewCredentials.CredentialsNotTemplated | media/webview.js:1309-1351 | So replacePreAuthCredentials does not always return a templated body: `Templated(Credentials(b))` fails for that body. |
| WebviewCredentials.CredentialsAgain | media/webview.js:1309-1351 | A second run on that result changes only the trailing `"user":"x"`, which it rewrites to `"user": "{{username}}"`. |
| WebviewCredentials.CredentialsNotIdempotent | media/webview.js:1309-1351 | replacePreAuthCredentials is not idempotent: run on its own result for `"pass":"user":""user":"x"`, it gives a longer text. |
| WebviewCredentials.ReplaceOnce | media/webview.js:1336-1338 | A global replace over a text the pattern matches exactly once rewrites just that match and keeps the text around it. |
| WebviewCredentials.NothingReplaced | media/webview.js:1336-1338 | A global replace over a text the pattern matches nowhere returns the text. |
| Webview.FormTemplateKey | media/webview.js:1341-1348 | A form credential keeps the key spelling as matched, and its value becomes the template. |
| Webview.BuildCurlCommandFromRequest | media/webview.js:1282-1307 | Computes `PreAuthCurl`: "" without a request; otherwise `curl -X METHOD url`, the `-H` flags of filled headers and the cleaned, templated body when non-blank. |
| Webview.AppendHeaderFlags | media/webview.js:1289-1294 | One `-H 'k: v'` flag per header with non-empty key and value, in order. |
| Webview.CleanBodyOf | media/webview.js:1296-1304 | Computes the cleaned body of the pre-auth command. |
| Webview.CleanBodyShape | media/webview.js:1296-1304 | The cleaned body has no CR or LF, is trimmed and has no two adjacent white-space characters. |
| Webview.CleanBodyVerbatim | media/webview.js:1296-1304 | A templated body without white space is kept verbatim. |
| Webview.LineBreaksRemoved | media/webview.js:1300 | Line breaks are deleted, not replaced, so no CR or LF remains. |
| Webview.FindPreAuthRequest | media/webview.js:1264-1270 | The result is a pre-auth request of the list. None means no request is pre-auth. |
| Webview.FindPreAuthFirst | media/webview.js:1264-1270 | The result is the first pre-auth request. |
| Webview.BuildUrlWithQueryParams | media/webview.js:630-664 | Computes `ComposedUrl`: the base URL, plus `?` and the encoded pairs when there are any. |
| Webview.CollectQueryParams | media/webview.js:640-650 | Collects the checked rows with a non-empty trimmed key, as trimmed pairs. |
| Webview.IncludedPairsFrom | media/webview.js:640-650 | A pair is included exactly when some checked row with a non-empty trimmed key gives it. |
| Webview.ComposedUrlParts | media/webview.js:630-664 | The base is the URL before the first `?`. With no included pairs the result is the base, with no `?`. Otherwise the text after the first `?` splits at `&` into the encoded pairs, in order. |
| Webview.QueryStringSplit | media/webview.js:656-661 | The query string splits at `&` into exactly the encoded pairs, each encoded by `smartEncodeURIComponent` as written. |
| Webview.EncodedPairs | media/webview.js:656-661 | One encoded pair per included parameter, each `smartEncodeURIComponent(k)=smartEncodeURIComponent(v)` with the encoder as written. |
| Webview.EnabledStored | media/webview.js:533-548 | The stored query parameters that are enabled are exactly the pairs the URL is built from. |
| Webview.DisplayRepeatsQuery | media/webview.js:218-231 | As written, a stored URL that already carries its query is shown with the query appended a second time, so it differs from the stored URL. |
| Webview.DisplayFixedShowsStored | media/webview.js:218-231 | The corrected display shows the stored URL as it is. |
| Webview.WithContentTypeAppends | media/webview.js:997-1018 | `updateContentTypeHeader` adds `Content-Type` for the body type only when the body is non-blank and no header is `content-type` in any case. It never overwrites. |
| Webview.RetypedOverwrites | media/webview.js:958-994 | `updateBodyType` sets the body type. For a non-blank body it overwrites an existing content-type header under that key's spelling, keeping header order, or appends `Content-Type`. |
| Webview.RetypedHasContentType | media/webview.js:958-1018 | After `updateBodyType`, `updateContentTypeHeader` changes nothing. |
| Webview.ContentTypeKey | media/webview.js:977-979 | The content-type key found is a header name equal to `content-type` in any case. None means there is no such header. |
| WebviewSession.Session.constructor | media/webview.js:17-22 | The session starts with the given requests, the first one current and no session variables. |
| WebviewSession.Session.AddNewRequest | media/webview.js:1021-1042 | Appends one GET `https://api.example.com` request with a fresh id and the first request's variables, and makes it current. |
| WebviewSession.AddKeepsIdsUnique | media/webview.js:1021-1042 | Adding keeps ids distinct, and the new request is found as the current one. |
| WebviewSession.FreshId | media/webview.js:1027 | The new id differs from every id in use. |
| WebviewSession.Session.DeleteRequest | media/webview.js:1045-1066 | Nothing changes when one request remains or the id is absent. Otherwise the request is removed, and the first remaining one becomes current if it was current. |
| WebviewSession.RemovedExactly | media/webview.js:1045-1066 | With distinct ids, deleting removes that request and keeps every other one, and the ids stay distinct. |
| WebviewSession.IndexOfId | media/webview.js:1054 | The index found is the first request with that id. None means the id is absent. |
| WebviewSession.Session.UpdateBodyType | media/webview.js:958-994 | Only the current request changes, to its retyped form. |
| WebviewSession.Session.UpdateContentTypeHeader | media/webview.js:997-1018 | Only the given request changes, gaining a Content-Type when it needs one. |
| WebviewSession.Session.HandleVariablesUpdate | media/webview.js:1452-1471 | Every request's variables get the incoming ones assigned over them. |
| WebviewSession.IncomingWins | media/webview.js:1452-1471 | After the update an incoming variable wins, and a request's other variables stay. |
| WebviewSession.Session.EnsureAuthVariableEmpty | media/webview.js:1082-1098 | Computes `AuthEmptied`: the current request's variables, with `auth` set to "", given to every request. |
| WebviewSession.AuthEmptiedIdempotent | media/webview.js:1082-1098 | Afterwards the current request's `auth` is "", and running it again changes nothing. |
| ConfigManager.ConfigManager.constructor | src/config/configManager.ts:15-44 | The manager starts with the default configuration: the `local` environment and the `en-US` locale. |
| ConfigManager.ConfigManager.GetEnvironment | src/config/configManager.ts:115-117 | The result is an environment with exactly that name. None means no environment has it. |
| ConfigManager.ConfigManager.GetUser | src/config/configManager.ts:122-124 | The result is a user with exactly that name. None means no user has it. |
| ConfigManager.ConfigManager.GetLocale | src/config/configManager.ts:129-131 | The result is the settings for exactly that locale. None means none match. |
| ConfigManager.FindFirst | src/config/configManager.ts:115-131 | The lookups return the first matching entry. |
| ConfigManager.SelectedEnvironment | src/config/configManager.ts:140-150 | The explicit environment name is used when given. The default is used only when no name is passed. |
| ConfigManager.SelectedUser | src/config/configManager.ts:153-173 | The user is selected the same way: an explicit name, else the default user. |
| ConfigManager.ConfigManager.GetMergedVariables | src/config/configManager.ts:136-176 | The steps fill a fresh dictionary equal to `MergedVariables` of the configuration. |
| ConfigManager.MergedPrecedence | src/config/configManager.ts:136-176 | A merged variable comes from the user's own variables, then from its truthy username/password/token, then from the selected environment. |

## Left out

- I/O and the host are not part of this model:
  - the DOM reads and writes, rendering, notifications and message passing of the webview script;
  - `sendRequest` and `executePreAuth`, including the `sessionVariables.auth` set after a pre-auth run (media/webview.js:1215);
  - `load`, `save` and `createExampleConfig` of the configuration manager;
  - the VS Code panel and command plumbing.
- `JSON.parse` used as a test and `new URL` are parameters (`Host.isJson`, `Host.urlPath`). The Postman payload arrives already decoded, through the `decode` parameter. Ill-typed JSON (a field of the wrong type) is not modelled: absent optional fields are "" or empty lists.
- Request ids built from `Date.now()` and `Math.random()` are natural numbers: counters in the parser and the importer, and one more than the largest id in `addNewRequest`. Only the properties the code relies on (distinctness, counter order) are stated.
- `toLowerCase` and `toUpperCase`, and the `i` flag of regular expressions, are ASCII case folding.
- JavaScript strings are UTF-16. Here a string is a sequence of Unicode scalar values, so the lone surrogates on which `encodeURIComponent` throws do not arise.
- JavaScript object key order puts integer-like keys first. The model keeps plain insertion order.
- Objects the source shares by reference are copied by value:
  - the parser's one `globalVariables` object is attached, in its final state, to every request;
  - `addNewRequest` shares the first request's variables object;
  - `ensureAuthVariableEmpty` gives every request the same object.
  The model copies the value in each case, so a later in-place change to one request's variables is not seen by the others.
- Variable names are matched as literal text in `new RegExp(…)`, which is exact for names of word characters. Replacement values are used literally: `$` patterns in replacement strings are not modelled.
- `parse` splits documents on `\n` only. A CR stays in the line and is trimmed away as white space wherever the code trims.
- `updateCurrentRequest` (media/webview.js:524-596) is modelled only for its query parameters and URL (533-548, 583). Its form reads are DOM work.
- The manual URL fallback of `parseUrlQueryParams` (media/webview.js:679-694) is not part of this model.
- The older copies of the webview logic embedded in src/webview/webviewContent.ts are not part of this model; the media/webview.js versions are modelled.
- Sanitizer.Sanitized: idempotence is not stated, because it does not hold. `SanitizerProps.SanitizedNotIdempotent` gives a body whose sanitized form is changed by a second run. Blanking a value leaves its closing quote behind, and that quote can open a new `"key":"value"` pair for a later key. What does hold is stated instead: text outside matched value spans is kept (`SanitizerProps.ScanHit`, `SanitizerProps.RunMiss`, `SanitizerProps.CutOnce`), and a fixed point of the whole sanitizer is a fixed point of every pass (`SanitizerProps.SanitizedFixedPasses`).
- SanitizeUntouched: covers only bodies with no quote and no `=`. Text outside the matched value spans of any body is kept by `SanitizerProps.ScanHit` and `SanitizerProps.RunMiss`. No single closed form of the whole sanitizer is given, because its passes run in sequence and a pass can create a match for a later one.
- Webview.ReplacePreAuthCredentials: idempotence and `Templated(Credentials(b))` for every body are not stated, because neither holds. `WebviewCredentials.CredentialsNotTemplated` and `WebviewCredentials.CredentialsNotIdempotent` give a body for which both fail. The closing quote of an inserted template can open a new field that an earlier key's pass has already gone by. Only the fixed points are proved: an already templated body is unchanged (`CredentialsFixed`).
- SmartEncoding.SmartEncodeURIComponent: placeholder preservation is proved only for input without `_` (`SmartEncodingProps.SmartEncodeAsWrittenAgrees`). With `_` in the input, marker text already present can be hit by the restoring replace, and the promise fails (`SmartEncoding.SmartEncodeMarkerClash`, see Findings).
- WebviewSession.Session.ReplaceVariables: the one-pass reading of its result (`WebviewSubstitution.SubstitutedResolves`) is proved only for texts whose `{` characters all belong to placeholders, and only for variables with distinct word-character names and `{`-free values. Other texts can cascade, because a value can join the braces around it into a new placeholder that a later variable replaces (`WebviewSubstitution.SubstitutedCascade`). Other values can cascade too. A value can itself hold a placeholder of a variable declared later, as in `url = {{host}}` declared before `host = h`. Then `{{url}}` comes out as `h`, where the one-pass reading gives `{{host}}` (`WebviewSubstitution.SubstitutedNestedValue`). The model runs the same sequential passes as the program, so it cascades in the same way.
- SerializerProps.SerializedVariablesRoundTrip: bodies are not round-tripped. Bodies change in two ways on a save and reload:
  - They grow at the end. `serialize` writes a line feed after the body and one more after the request (src/parser/httpParser.ts:231-234), and `parse` keeps blank body lines (:158). A body that is not last gains one trailing line feed. The last body gains two, because `split("\n")` (:12) gives two empty lines at the end of the text.
  - Some body lines are not read back as body. A line that starts with `#` after trimming is dropped as a comment (:37, :86-88), and a `###` line opens a new request (:41). A line that starts with `@` and holds `=` is taken as a declaration (:28). A method line is swallowed (:100-128).

## Findings

| source | as written | input that shows it | evidently intended | confidence | as-written member | corrected member |
|---|---|---|---|---|---|---|
| media/webview.js:599-627 | Placeholders are shielded as `__VAR_i__` markers. They are restored with a first-occurrence `replace`, which can hit marker text that was already in the input. | `__VAR_0{{a}}` gives `{{a}}VAR_0__` | The input comes back unchanged, since it has nothing to encode. | not executed | SmartEncoding.SmartEncodeMarkerClash | SmartEncoding.SmartEncodeRestores |
| media/webview.js:218-231 | `selectRequest` appends `?` and the stored query parameters to the stored URL. That URL already carries them, because `updateCurrentRequest` stores the composed URL (media/webview.js:583). | stored URL `h?a=1` with enabled parameter `a=1` is shown as `h?a=1?a=1` | The URL is shown as stored. | not executed | Webview.DisplayRepeatsQuery | Webview.DisplayFixedShowsStored |
| src/parser/httpParser.ts:382-392 | The JSON credential patterns are built from template literals, so `\s*` becomes `s*`. Only `"key":"value"` with nothing but `s` around the colon is blanked. | `"password": "secret"` is kept as is | `"password": ""` | not executed | Sanitizer.SpacedPairKept | Sanitizer.SpacedPairBlanked |
