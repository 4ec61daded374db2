# SkinSight: verified model of the reply normaliser, the analysis server and two UI panels

SkinSight sends a skin photo to a MedGemma model on Vertex AI. It turns
whatever text comes back into a stable record for the UI:

- condition
- explanation
- a list of causes
- a list of steps
- an optional doctor hint

This project models the logic behind that in Dafny and proves what it does.

- **`MedGemmaParse`** (`medgemma_parse.dfy`) models `server/medgemmaParse.ts`, the tolerant normaliser. `ParseMedGemmaContent` returns a record for every reply except one where `String(v)` throws (see Findings). It:
  1. takes the first fenced block, else the first-`{`-to-last-`}` span, else the trimmed text;
  2. strips fence markers;
  3. parses, where a failure or `null` becomes `{}`;
  4. maps key aliases onto the five fields: scalars become trimmed strings, `toArray` makes lists, and `doctor` is optional.
- **`AnalyzeServer`** (`server_index.dfy`) models the pure parts of `server/index.ts`:
  - the strict extractor `extractJsonFromResponse`: a direct parse, then the first case-sensitive fenced `{...}`, then the greedy `{...}`, and otherwise it throws;
  - `tryParse`, `vertexHost` and `buildChatCompletionsPayload`;
  - these decisions of the `/analyze` handler:
    - the upload-error message;
    - the prompt default;
    - the order in which image sources are picked (a step-by-step method, as in the source);
    - the response built from the model's reply.
- **`ResultsView`** (`results_section.dfy`) models `src/components/ResultsSection.tsx`:
  - the case-insensitive risk colour and icon switches;
  - the per-product record with its defaults;
  - the dropping of null products, with order kept.
- **`Upload`** (`upload_section.dfy`) models `src/components/UploadSection.tsx` as a class. Its fields are the three state fields of the panel. It has one method per handler, plus the pure file check (type first, then a 5 MiB inclusive bound).
- **Shared modules:**
  - `JsonValues` (`json.dfy`) holds parsed JSON values and the JavaScript semantics used on them: truthiness, `??`, optional chaining, and `String(v)`.
  - `Text` (`text.dfy`) holds ASCII `trim`, `indexOf`/`lastIndexOf`, the brace span and lower-casing.
  - `Wrappers` (`wrappers.dfy`) holds `Option` and `Result`.

`JSON.parse` is a parameter `parse: string -> Option<Json>` of every function that parses. `None` stands for a thrown SyntaxError. Every regular expression is written as an index scan:

- The normaliser's fence regex is case-insensitive and has a lazy body.
- The server's fence regex is case-sensitive. Its `{...}` group is lazy and must be followed by optional whitespace and a fence.
- The fallback `/\{[\s\S]*\}/` is greedy.

Every lemma holds for every `parse`; none of them is about a fixed parser. Lemmas whose documentation starts with "Example:" fix one concrete input.

The model follows the code as written, including these choices:

- `parseMedGemmaContent` never tries a direct parse before cutting out the brace span.
- A fenced block whose group is empty falls through to the brace span.
- Without braces, the chunk is the trimmed text.
- A whitespace-only `doctor` is kept as a present `""` rather than dropped (`BlankDoctorKept`).
- The normaliser's record and the server's success reply carry no risk field. `ResultsSection` reads `analysis.riskLevel` (src/components/ResultsSection.tsx, lines 113 and 144) from a result that no modelled code builds, so no keyword-based risk classifier is modelled; only the two switches on the level are.

## Model

| member | source | states |
|---|---|---|
| JsonValues.ToStr | server/medgemmaParse.ts:80-84 | `String(v)` returns exactly when no object it reaches, at any array depth, has its own "toString" key; a string converts to itself and any other object to "[object Object]" |
| MedGemmaParse.FenceGroup | server/medgemmaParse.ts:29 | a match starts at the first "```"; its group begins at least three characters after it, ends at a "```", and holds no "```" inside |
| MedGemmaParse.FenceGroupExists | server/medgemmaParse.ts:29 | the fence pattern matches exactly when some "```" is followed, without overlap, by another |
| MedGemmaParse.ExtractJsonChunk | server/medgemmaParse.ts:27-40 | a non-empty fenced group gives its trimmed text; otherwise a brace span gives that inclusive slice, starting with "{" and ending with "}"; otherwise the trimmed text |
| MedGemmaParse.FencedBlockIsChunk | server/medgemmaParse.ts:29-30 | for any prose before the fence (no backtick), any tag "json" in any case, and any text after the block (braces included), the chunk is the trimmed body of the first block |
| MedGemmaParse.ProseWrappedIsChunk | server/medgemmaParse.ts:33-37 | without backticks, an object with "{"-free prose before it and "}"-free prose after it is the chunk, exactly |
| MedGemmaParse.ProseBraces | server/medgemmaParse.ts:33-36 | the first "{" and the last "}" of such a text are the object's own braces |
| MedGemmaParse.NoBacktickNoGroup | server/medgemmaParse.ts:29-30 | a text without a backtick has no fenced block |
| MedGemmaParse.RemoveJsonMarkers | server/medgemmaParse.ts:13 | the marker removal never lengthens the text; what it removes is stated by the lemmas that follow |
| MedGemmaParse.MarkerFreeUnchanged | server/medgemmaParse.ts:13 | a text without any fence is left unchanged by the marker removal |
| MedGemmaParse.KeepPrefix | server/medgemmaParse.ts:13 | text before the first marker is kept unchanged, and the scan goes on after it |
| MedGemmaParse.NoBacktickKept | server/medgemmaParse.ts:13 | a prefix without backticks is kept unchanged |
| MedGemmaParse.MarkerDropped | server/medgemmaParse.ts:13 | a "```json" in any case after fence-free text is removed together with all the whitespace after it, and the text before it is kept |
| MedGemmaParse.ClosingFenceKept | server/medgemmaParse.ts:13 | a bare closing fence and the whitespace after it are not a marker and stay |
| MedGemmaParse.RemoveTrailingFence | server/medgemmaParse.ts:14 | a text without any fence is left unchanged by the trailing-fence removal |
| MedGemmaParse.TrailingFenceShape | server/medgemmaParse.ts:14 | the result is a prefix of the text; when anything was cut, it is a "```" followed only by whitespace to the end |
| MedGemmaParse.TrailingFenceDropped | server/medgemmaParse.ts:14 | text, a fence and trailing whitespace give back exactly the text |
| MedGemmaParse.RemoveLeadingFence | server/medgemmaParse.ts:15 | a text without any fence is left unchanged by the leading-fence removal |
| MedGemmaParse.LeadingFenceShape | server/medgemmaParse.ts:15 | the result is a suffix of the text; when anything was cut, it is whitespace followed by one "```" at the start |
| MedGemmaParse.LeadingFenceDropped | server/medgemmaParse.ts:15 | leading whitespace, a fence and then text give back exactly the text |
| MedGemmaParse.StripCodeFences | server/medgemmaParse.ts:10-17 | the output never starts or ends with whitespace |
| MedGemmaParse.StripFenceFree | server/medgemmaParse.ts:10-17 | on a text without fences, stripping reduces to trimming |
| MedGemmaParse.StripUntagged | server/medgemmaParse.ts:12-15 | an untagged fenced block between whitespace loses both fences and keeps the text between them |
| MedGemmaParse.StripTagged | server/medgemmaParse.ts:10-17 | a block tagged "json" in any case, between whitespace, strips to the trimmed text between the fences |
| MedGemmaParse.StripFencedBlock | server/medgemmaParse.ts:10-17 | end to end: whitespace, a fence, an optional "json" tag, whitespace, a body without backticks, whitespace, a fence and whitespace strip to exactly the trimmed body |
| MedGemmaParse.FenceFreeBodyNotEnough | server/medgemmaParse.ts:13-16 | "``json x" holds no fence, yet between two fences it strips to "``x" rather than to itself: the body of the lemma above must be free of backticks, not just of fences |
| MedGemmaParse.StripCanLeaveMarker | server/medgemmaParse.ts:13-16 | "a```j```jsonson" strips to "a```json": a single removal pass can leave a "```json" marker behind |
| MedGemmaParse.ParsedOrEmpty | server/medgemmaParse.ts:93 | the value parsed is never null; a parse failure or a parsed null becomes `{}`; anything else parsed is kept |
| MedGemmaParse.Coalesce | server/medgemmaParse.ts:44-73 | the `??` chain never yields null |
| MedGemmaParse.CoalescePicks | server/medgemmaParse.ts:44-73 | the chain yields the value of some alias whose predecessors are all nullish, and it is undefined exactly when every alias is nullish |
| MedGemmaParse.FirstPresentAliasWins | server/medgemmaParse.ts:44-73 | after any number of nullish aliases, the first non-nullish alias decides the chain, whatever the later ones hold |
| MedGemmaParse.FirstAliasExample | server/medgemmaParse.ts:44-80 | `{"condition":"Acne","diagnosis":"Rosacea"}` gives condition "Acne" |
| MedGemmaParse.NullAliasExample | server/medgemmaParse.ts:44-80 | a null `condition` falls through to `diagnosis` |
| MedGemmaParse.EmptyAliasExample | server/medgemmaParse.ts:50-81 | a present "" `summary` hides `description`, giving explanation "" |
| MedGemmaParse.FalsyAliasHidesLater | server/medgemmaParse.ts:44-84 | a falsy but non-null first present alias ("", 0, false) gives "" for a scalar field, [] for a list field and no doctor |
| MedGemmaParse.ScalarField | server/medgemmaParse.ts:80-81 | for a value `String` can convert: always trimmed, "" when the value is falsy or absent, and otherwise the trimmed `String(v)` |
| MedGemmaParse.ToArray | server/medgemmaParse.ts:76-77 | an array is kept as it is, a truthy scalar becomes `[String(v)]`, and anything else becomes [] |
| MedGemmaParse.ListField | server/medgemmaParse.ts:76-83 | the list has as many entries as `toArray` gives, each the `String` of the element at that position, which converts |
| MedGemmaParse.DoctorField | server/medgemmaParse.ts:69-84 | the doctor is absent exactly when the chosen value is falsy; otherwise it is the trimmed `String(v)` |
| MedGemmaParse.Normalized | server/medgemmaParse.ts:79-85 | when no conversion throws: condition, explanation and doctor are trimmed, the doctor is absent exactly when its chain is falsy, and the list lengths are those of `toArray` on their chains |
| MedGemmaParse.NormalizeKeys | server/medgemmaParse.ts:42-86 | a record exactly when none of the five `String` conversions throws; then condition, explanation and doctor are trimmed, and the doctor is absent exactly when its chain is falsy |
| MedGemmaParse.ChainConverts | server/medgemmaParse.ts:44-84 | when no value of the object holds its own "toString" key, whatever an alias chain picks converts |
| MedGemmaParse.StringableNormalizes | server/medgemmaParse.ts:42-86 | an object none of whose values (at any array depth) holds its own "toString" key normalises without throwing |
| MedGemmaParse.OwnToStringThrows | server/medgemmaParse.ts:44-80 | a `condition` that is an object with its own "toString" key makes normalisation throw |
| MedGemmaParse.NothingPresentIsEmpty | server/medgemmaParse.ts:42-86 | when every key is nullish, normalisation gives the all-default record |
| MedGemmaParse.NonObjectIsEmpty | server/medgemmaParse.ts:42-86 | any parsed value that is not an object gives the all-default record, without throwing |
| MedGemmaParse.ArrayFieldKeepsOrder | server/medgemmaParse.ts:76-83 | an array field keeps its length and order, each element the untrimmed `String` of the element at that position |
| MedGemmaParse.ScalarBecomesList | server/medgemmaParse.ts:76-83 | a truthy non-array value becomes the one-element list `[String(v)]` |
| MedGemmaParse.BlankDoctorKept | server/medgemmaParse.ts:69-84 | a whitespace-only `doctor` yields a present "" |
| MedGemmaParse.ScalarRoundTrip | server/medgemmaParse.ts:80-81 | a trimmed string reads back as itself |
| MedGemmaParse.ListRoundTrip | server/medgemmaParse.ts:76-83 | a list of strings reads back as itself |
| MedGemmaParse.ConditionRoundTrip | server/medgemmaParse.ts:44-80 | the canonical key `condition` reads back, and normalisation does not throw |
| MedGemmaParse.ExplanationRoundTrip | server/medgemmaParse.ts:50-81 | the canonical key `explanation` reads back, and normalisation does not throw |
| MedGemmaParse.CausesRoundTrip | server/medgemmaParse.ts:56-82 | the canonical key `causes` reads back, and normalisation does not throw |
| MedGemmaParse.StepsRoundTrip | server/medgemmaParse.ts:62-83 | the canonical key `steps` reads back, and normalisation does not throw |
| MedGemmaParse.DoctorRoundTrip | server/medgemmaParse.ts:69-84 | a non-empty trimmed doctor reads back; with no doctor key none of the doctor aliases is present and the field stays absent |
| MedGemmaParse.NormalizeToJson | server/medgemmaParse.ts:42-86 | normalising the JSON object of a canonical record (trimmed strings, non-empty doctor) gives that record back |
| MedGemmaParse.NormalizeStable | server/medgemmaParse.ts:42-86 | normalisation is idempotent through its JSON form unless the doctor came out as "" |
| MedGemmaParse.BlankDoctorNotStable | server/medgemmaParse.ts:69-84 | a whitespace doctor is kept as "" and then dropped by a second pass, so idempotence fails exactly there |
| MedGemmaParse.Jsonish | server/medgemmaParse.ts:90 | the text handed to the parser is always trimmed |
| MedGemmaParse.ParseMedGemmaContent | server/medgemmaParse.ts:88-97 | when a record is returned, condition, explanation and doctor are trimmed; when the chunk does not parse (or parses to null) the result is "", "", [], [] with no doctor |
| MedGemmaParse.ParseTotalWithoutToString | server/medgemmaParse.ts:88-97 | a reply whose parsed value has no own "toString" key among its values always yields a record |
| MedGemmaParse.ToStringReplyThrows | server/medgemmaParse.ts:80 | for the reply `{"condition":{"toString":1}}`, parsed as written, no record is returned: `String` throws |
| MedGemmaParse.TolerantParse | server/medgemmaParse.ts:88-97 | always a record with trimmed condition, explanation and doctor; the same record as the source whenever the source returns one, and the defaults when the chunk does not parse |
| MedGemmaParse.ToStringReplyTolerated | server/medgemmaParse.ts:88-97 | the tolerant reading gives the defaults for the reply that throws as written |
| MedGemmaParse.TrimNoBacktick | server/medgemmaParse.ts:30 | trimming a backtick-free text leaves no fence |
| MedGemmaParse.FencedReplyParsesBody | server/medgemmaParse.ts:88-97 | for a reply with a first fenced block, what is parsed is that block's trimmed body, whatever follows, and the result is the normalisation of its parse |
| MedGemmaParse.FencedRoundTrip | server/medgemmaParse.ts:88-97 | a canonical record sent back as JSON inside a fenced block is recovered exactly, by the source and by the tolerant reading |
| MedGemmaParse.ProseReplyParsesObject | server/medgemmaParse.ts:88-97 | for prose around an object without backticks, what is parsed is exactly the object |
| MedGemmaParse.ProseRoundTrip | server/medgemmaParse.ts:88-97 | a canonical record sent back as JSON inside prose is recovered exactly, by the source and by the tolerant reading |
| AnalyzeServer.BodyStart | server/index.ts:91 | the object of a match at a fence may start only after the fence, and within the content |
| AnalyzeServer.BodyStartShape | server/index.ts:91 | between the fence and the object lie the exact "json" tag when it is there and then only whitespace, and the object's first character is not whitespace |
| AnalyzeServer.LazyClose | server/index.ts:91 | a place found for the lazy group to end lies at or after the start and is a "}" followed by optional whitespace and a fence |
| AnalyzeServer.LazyCloseFirst | server/index.ts:91 | the lazy group ends at the first such place, and there is no match only when no such place exists |
| AnalyzeServer.FencedObjectAt | server/index.ts:91 | a match at a position starts at a fence, and its group is a non-empty "{...}" that closes there |
| AnalyzeServer.FirstFencedObject | server/index.ts:91-92 | the match found is a slice of the content that starts with "{" and ends with "}" |
| AnalyzeServer.FirstFencedObjectIs | server/index.ts:91-92 | a match with no match at an earlier position is the one `match` returns |
| AnalyzeServer.FirstFencedNoneAll | server/index.ts:91-92 | when nothing is found, no position holds a match |
| AnalyzeServer.FirstFencedNone | server/index.ts:91-92 | when no position holds a match, nothing is found |
| AnalyzeServer.ExtractJsonFromResponse | server/index.ts:85-105 | content that parses as a whole comes back unchanged; every failure is a failed direct parse and is either the thrown "No valid JSON" error or a SyntaxError |
| AnalyzeServer.GreedyFallback | server/index.ts:97-100 | the greedy fallback fails only as a SyntaxError or as "No valid JSON" |
| AnalyzeServer.FallbackSpanCovers | server/index.ts:96-100 | whenever a fenced object was found, the greedy span exists and covers it |
| AnalyzeServer.FencedFailureFallsBack | server/index.ts:93-100 | a fenced object that does not parse gives the parse of the greedy span of the whole content, or a SyntaxError when that fails too |
| AnalyzeServer.NoValidJsonExactly | server/index.ts:87-103 | "No valid JSON found in response" is thrown exactly when the content does not parse and holds no fenced object |
| AnalyzeServer.UnfencedRejected | server/index.ts:91-103 | content without a backtick that does not parse as a whole is always rejected, whatever braces it holds |
| AnalyzeServer.ProseObjectRejected | server/index.ts:85-103 | "see {}" is rejected although "{}" alone is accepted |
| AnalyzeServer.FencedObjectParsed | server/index.ts:91-94 | a reply of prose, a fence with an optional exact "json" tag, whitespace, an object, whitespace and a fence yields the parse of that object |
| AnalyzeServer.FencedReplyMatch | server/index.ts:91 | in such a reply, the object is the first fenced match |
| AnalyzeServer.TryParse | server/index.ts:254-260 | never fails: the parsed value, or an object whose only key is `_raw` and holds the text |
| AnalyzeServer.TryParseKeepsText | server/index.ts:254-260 | an unparseable text can be read back from `_raw` |
| AnalyzeServer.VertexHost | server/index.ts:34-38 | the host starts with the endpoint, ends with the fixed suffix, and is as long as the three parts, two separators and the suffix |
| AnalyzeServer.SplitVertexHost | server/index.ts:34-38 | a host taken apart gives an endpoint without "." and a project number without "-" |
| AnalyzeServer.SplitVertexHostRoundTrip | server/index.ts:34-38 | the host determines its parts whenever the endpoint has no "." and the project number no "-" |
| AnalyzeServer.TextPart | server/index.ts:64-73 | a text part carries its text |
| AnalyzeServer.ImagePart | server/index.ts:74 | an image part carries its URL under `image_url.url` |
| AnalyzeServer.Message | server/index.ts:61-76 | a message carries its content list |
| AnalyzeServer.ChatInstance | server/index.ts:58-79 | the instance has the chatCompletions format, the two messages, and the token bound |
| AnalyzeServer.Instances | server/index.ts:56-81 | the payload is `{instances: [instance]}` |
| AnalyzeServer.BuildChatCompletionsPayload | server/index.ts:51-82 | the payload is an object whose only key is `instances`, holding exactly one instance |
| AnalyzeServer.PayloadFields | server/index.ts:51-82 | read along its paths, the payload has: the chatCompletions format; the fixed system prompt; the user prompt, or the default when it is empty; the image; and `max_tokens`, or 400 when it is undefined |
| AnalyzeServer.HandlerPrompt | server/index.ts:133-135 | the prompt is the body's prompt when it is non-empty, else the handler's default, so it is never empty |
| AnalyzeServer.HandlerPayload | server/index.ts:185 | the request carries the handler's prompt, never the payload's default text, and 400 tokens |
| AnalyzeServer.SelectImageSource | server/index.ts:138-166 | the image chosen is, in order: the uploaded file as a WebP data URL, a non-empty `body.imageUrl`, a non-empty `query.imageUrl`; otherwise the 400 "No image provided. Upload a file or pass imageUrl." |
| AnalyzeServer.ErrorBody | server/index.ts:129 | an error body says `ok: false` and carries the message |
| AnalyzeServer.UploadErrorMessage | server/index.ts:125-128 | an error other than LIMIT_FILE_SIZE reads "Upload error: " followed by its message |
| AnalyzeServer.UploadErrorResponse | server/index.ts:123-130 | every upload error is a 400 with `ok: false` and that message |
| AnalyzeServer.TooLargeExactly | server/index.ts:125-128 | "File too large (max 10MB)." is the message exactly for the LIMIT_FILE_SIZE code |
| AnalyzeServer.ExtractFromContent | server/index.ts:214-225 | string content goes through the extractor; other content succeeds exactly when `String(v)` returns and its text parses, and then gives that parse |
| AnalyzeServer.Put | server/index.ts:227-236 | a defined member is set and an undefined one is left out |
| AnalyzeServer.OrEmptyList | server/index.ts:231-232 | the `[]` default is always truthy, and a truthy value is kept |
| AnalyzeServer.ParseFailure | server/index.ts:237-245 | a parse failure is a 502 with `ok: false`, the fixed message and the raw content |
| AnalyzeServer.AnalyzeReply | server/index.ts:211-245 | a model reply is always answered with 200 or 502 |
| AnalyzeServer.NoContentReply | server/index.ts:214-221 | a reply without content is a 502 with `ok: false`, "No content in model response", and the parsed reply |
| AnalyzeServer.ContentReply | server/index.ts:224-245 | the status is 200 exactly when the extractor succeeds with a non-null value, otherwise 502 |
| AnalyzeServer.ReplyOkMatchesStatus | server/index.ts:214-245 | every answer says `ok: true` exactly when its status is 200 |
| AnalyzeServer.ContentReplyOk | server/index.ts:224-245 | for content that is there, `ok` is true exactly when the status is 200 |
| AnalyzeServer.SuccessBody | server/index.ts:227-236 | always an object holding `ok`, `causes`, `steps` and `source`, and no key other than the eight the handler writes |
| AnalyzeServer.SuccessBodyFields | server/index.ts:227-236 | the success body passes condition, explanation, doctor and usage through unchanged, replaces falsy causes and steps with [], and says `ok: true` and `source: "medgemma"` |
| AnalyzeServer.SuccessFixed | server/index.ts:228-234 | the success body always says `ok: true` and `source: "medgemma"` |
| AnalyzeServer.SuccessPassed | server/index.ts:229-230 | condition and explanation pass through unchanged |
| AnalyzeServer.SuccessDoctor | server/index.ts:233-235 | doctor and usage pass through unchanged |
| AnalyzeServer.SuccessLists | server/index.ts:231-232 | causes and steps are replaced by [] when falsy |
| AnalyzeServer.UnparseableReply | server/index.ts:237-245 | content that the extractor cannot use is answered with a 502 carrying "Failed to parse model response as JSON" and the raw content |
| ResultsView.GetRiskColor | src/components/ResultsSection.tsx:83-94 | the colour is always one of the badge variants success, warning, destructive and secondary |
| ResultsView.GetRiskIcon | src/components/ResultsSection.tsx:96-107 | each icon is chosen exactly where the colour switch picks its variant: CheckCircle with success, Clock with warning, AlertTriangle with destructive, Info with secondary |
| ResultsView.LowerIs | src/components/ResultsSection.tsx:84-97 | comparing the lower-cased level with a word is comparing letter by letter, ignoring case |
| ResultsView.RiskTiers | src/components/ResultsSection.tsx:83-107 | colour and icon follow the same tiers: success/CheckCircle exactly for "low" in any case, warning/Clock for "medium", destructive/AlertTriangle for "high", secondary/Info for everything else |
| ResultsView.CaseInsensitive | src/components/ResultsSection.tsx:84-97 | two spellings that differ only in case get the same colour and icon |
| ResultsView.HighInAnyCase | src/components/ResultsSection.tsx:84-90 | "HIGH", "High" and "high" all give "destructive" |
| ResultsView.NoTrimNoSubstring | src/components/ResultsSection.tsx:84-106 | " low" and "low risk" get the default colour and icon |
| ResultsView.OrElse | src/components/ResultsSection.tsx:68-70 | a truthy value is kept, and otherwise the fallback is given |
| ResultsView.MapProduct | src/components/ResultsSection.tsx:64-74 | id, name, image and url are copied as they are; rating, reviews and price fall back to "N/A", 0 and "See on Amazon" |
| ResultsView.ProductDefaults | src/components/ResultsSection.tsx:68-70 | the rating and price shown are always truthy, and each default appears exactly where its field is missing or falsy |
| ResultsView.ProductOf | src/components/ResultsSection.tsx:63-74 | a product exists exactly when `data?.data?.products?.[0]` is truthy, and then it is that record mapped |
| ResultsView.EmptySearchGivesNull | src/components/ResultsSection.tsx:63-74 | a response with an empty products list gives null |
| ResultsView.KeepPresent | src/components/ResultsSection.tsx:77 | filtering keeps at most as many entries as it is given |
| ResultsView.KeepPresentAppend | src/components/ResultsSection.tsx:77 | the filter distributes over concatenation, so what is kept stays in order |
| ResultsView.KeepPresentMembers | src/components/ResultsSection.tsx:77 | exactly the non-null products are kept |
| ResultsView.KeepPresentAll | src/components/ResultsSection.tsx:77 | a list without nulls is kept whole |
| ResultsView.ProductsOf | src/components/ResultsSection.tsx:54-77 | there are never more products than searches |
| ResultsView.ProductsOfSnoc | src/components/ResultsSection.tsx:54-77 | one more search adds its product, if any, at the end |
| Upload.CheckFile | src/components/UploadSection.tsx:39-56 | the file check: a non-image type is refused first, then a size above 5 MiB |
| Upload.AcceptedExactly | src/components/UploadSection.tsx:39-56 | a file is accepted exactly when its type starts with "image/" and its size is at most 5242880 bytes |
| Upload.TypeBeforeSize | src/components/UploadSection.tsx:40-47 | a non-image is refused for its type, whatever its size |
| Upload.SizeBoundary | src/components/UploadSection.tsx:49-56 | exactly 5 MiB is accepted and one byte more is too large |
| Upload.DragActiveAfter | src/components/UploadSection.tsx:16-20 | "dragenter" and "dragover" turn the highlight on, and "dragleave" turns it off |
| Upload.DragEvents | src/components/UploadSection.tsx:16-20 | other event types leave the highlight alone, and repeating an event changes nothing |
| Upload.LeaveEndsDrag | src/components/UploadSection.tsx:16-20 | after any sequence of events ending in "dragleave", the highlight is off |
| Upload.UploadSection.constructor | src/components/UploadSection.tsx:8-10 | the panel starts with no drag, no image and no analysis |
| Upload.UploadSection.HandleDrag | src/components/UploadSection.tsx:13-21 | the highlight follows the event and nothing else changes |
| Upload.UploadSection.HandleFile | src/components/UploadSection.tsx:39-67 | the verdict is the file check; an accepted file becomes the image; a refused one leaves the image unchanged; the other fields never change |
| Upload.UploadSection.HandleDrop | src/components/UploadSection.tsx:23-31 | the highlight always ends; only the first dropped file, if any, is handled |
| Upload.UploadSection.HandleFileInput | src/components/UploadSection.tsx:33-37 | only the first chosen file, if any, is handled, and the highlight is untouched |
| Upload.UploadSection.HandleAnalyze | src/components/UploadSection.tsx:69-71 | the analysis starts and nothing else changes |
| Upload.UploadSection.FinishAnalysis | src/components/UploadSection.tsx:72-75 | when the timer fires, the analysis ends and nothing else changes |
| Upload.UploadSection.ClearImage | src/components/UploadSection.tsx:78-81 | the image is removed and the analysis stops; the highlight is untouched |
| Upload.ExampleSession | src/components/UploadSection.tsx:13-81 | a session that drags, is refused a too-large drop, then accepts, analyses and clears a file ends with the panel empty |

## Left out

- `JSON.parse`: a parameter (`parse`), not a verified parser. Every property holds for every such function.
- Numbers: JSON numbers are integers, so `String(v)` of a fraction or an exponent form is not modelled.
- Whitespace and case: `\s`, `trim` and `toLowerCase` are ASCII only (space, tab, line feed, vertical tab, form feed, carriage return; A–Z). Unicode spaces and letters are not modelled.
- Property access: only own keys of parsed objects are seen. Built-in properties of strings, arrays and `Object.prototype` are not modelled; none of the keys read is one of them.
- `String(v)` of an object with its own `toString` key: JavaScript throws a TypeError, as the key's value is never a function and `valueOf` gives back the object. `ToStr` gives `None` there; the TypeError's message is not modelled.
- ParseMedGemmaContent: returns an `Option`, because the source throws for the reply under Findings. `TolerantParse` is the total reading.
- StripCodeFences: the output is not always free of a case-insensitive "```json" marker. A single removal pass can join its neighbours into a new marker; `StripCanLeaveMarker` gives the input.
- Server plumbing is I/O and foreign libraries:
  - Express and cors;
  - multer itself, including its 10 MB limit;
  - dotenv and the environment configuration;
  - the `sharp` resize and WebP step (the model takes its base64 output);
  - GoogleAuth token retrieval and the `fetch` to Vertex;
  - `app.listen` and the `/status` route;
  - console logging.
- The `/analyze` mock branch (server/index.ts:168-183) is a constant reply when Vertex is off.
- The non-OK `resp.ok` branch (server/index.ts:203-209) is left out because its message is made from HTTP status text.
- Catch-all 500 (server/index.ts:247-250): this catches failures of the I/O steps, which are not modelled.
- AnalyzeReply: the `parseError` message of a SyntaxError or TypeError is a parameter, because its wording belongs to the JavaScript engine.
- HandlerPrompt and SelectImageSource:
  - A prompt or `imageUrl` sent as a non-string (an array from a repeated query field, say) is not modelled.
  - An upload without a `buffer` is not modelled.
- ResultsView: the YouTube and Amazon `fetch` calls and `Promise.all` are left out, as network calls and concurrency. Only the per-product mapping and the null filtering are modelled.
- React:
  - JSX rendering, the `useEffect` that triggers the lookups, and toasts are presentation or side effects.
  - `FileReader` is asynchronous and `setTimeout` is timing. Here the reader's result is a parameter of `HandleFile`, and the timer's completion is the separate method `FinishAnalysis`.

## Findings

| source | as written | input that shows it | evidently intended | confidence | as-written member | corrected member |
|---|---|---|---|---|---|---|
| server/medgemmaParse.ts:80-84 | `String` is applied to whatever value an alias chain picks; on an object with its own "toString" key it throws a TypeError, so parseMedGemmaContent throws instead of giving a record | the reply `{"condition":{"toString":1}}` | a reply whose values cannot be converted gives the defaults, as one that does not parse does | not executed; low | MedGemmaParse.ToStringReplyThrows | MedGemmaParse.TolerantParse |
