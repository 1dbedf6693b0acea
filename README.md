# Guangzhou district / street / road API explorer — a Dafny model of its logic

The explorer is a single React page (`index.tsx`). It lets a user set two base URLs: a primary one and a secondary (fallback) one. It loads the list of Guangzhou districts for the dropdowns, and it offers one card per API example. In each card the user fills in query parameters, sends a GET request and sees the JSON reply or an error message.

This project models the three pieces of the page that compute something:

- **District loading** (`fetchDistricts` and the App state it writes), module `Districts`.
  - It builds the candidate list: the secondary URL first, then the primary, each trimmed, blank ones dropped and one trailing `/` removed.
  - It tries the candidates in order. The first response that is `ok` and whose body is an array of strings wins.
  - It collects one message per failed candidate. When all fail, it joins the non-empty messages with `; `, or shows a fallback message.
  - The four status paragraphs under the button are also modelled.
  - The class `Districts.App` holds the six state variables. `FetchDistricts` is imperative: it pushes candidates and runs the loop with `break`. It is proved equal to the specification function `Settle`, and the fallback-chain properties are proved about `Settle` and `Resolve`.
- **An example card** (`ApiCallExampleCard`), module `ExampleCard`.
  - The form starts from the declared parameters and their defaults. `handleParamChange` replaces one key.
  - `handleSubmit` rejects an empty base URL and keeps the parameters whose value is non-empty, in dictionary order.
  - It builds `base (less one trailing /) + path + "?" + query`.
  - It turns the answer into the response or an error message: the parse error, `data.error`, or the status message.
  - The class `ExampleCard.Card` holds the card's state. The `/roads` example is a concrete input in module `RoadsExample`.
- **Supporting JavaScript semantics:**
  - `String.prototype.trim` (ECMAScript white space and line terminators), `replace(/\/$/, '')`, `filter(Boolean)`, `join`, and decimal printing of numbers (`JsText`);
  - JSON values, truthiness, `String(x)` and property lookup (`Json`);
  - the answer a `fetch` plus `response.json()` comes to (`Fetch`);
  - objects used as string dictionaries, in insertion order (`Records`);
  - `URLSearchParams.toString()` as the application/x-www-form-urlencoded serializer of the WHATWG URL Standard over UTF-8 (`FormUrlEncoded`). It is paired with a parser and proved to round-trip.

The network is a parameter. Every operation that sends requests receives `fetch: string -> Attempt`. That function gives, for each URL, one of three answers:
- a transport failure with its message;
- a response with its `ok` flag, its status and a body that parsed;
- a response with its `ok` flag, its status and a body that failed to parse, with the parse error's message.

## Model

| member | source | states |
|---|---|---|
| Districts.Candidates | index.tsx:382-392 | The candidate list has at most two entries and is empty exactly when both trimmed URLs are blank. The secondary comes first and the primary last. Each is named and normalised. There are two entries exactly when both URLs are set. |
| Districts.Normalize | index.tsx:384-391 | (Definition.) A configured URL is trimmed, then loses one final `/`; `CandidateUrl` states what survives. |
| Districts.DistrictsUrl | index.tsx:405 | (Definition.) A candidate is requested at its URL followed by `/districts`. |
| Districts.StatusFailure | index.tsx:407 | (Definition.) A failing status reads `从 <name> (<url>) 获取行政区失败 - 状态: <status>`. |
| Districts.MalformedData | index.tsx:418 | (Definition.) A body that is not an array of strings reads `从 <name> (<url>) 获取的行政区数据格式不正确。`. |
| Districts.Label | index.tsx:413 | (Definition.) The label kept after a success is `<name> (<url>)`. |
| Districts.StatusLines | index.tsx:488-497 | (Definition.) The four paragraphs and their conditions: loading; an error while not loading; a non-empty list with no error, naming the label; an empty list with no error. `StatusLinesExactlyOne` and `SettleStatus` state their properties. |
| Districts.CandidateUrl | index.tsx:383-391 | A candidate URL is the trimmed value, or the trimmed value less one final `/`. It never starts with white space. |
| JsText.Trim | index.tsx:384-385 | (Definition.) `String.prototype.trim`: `TrimStart` drops leading and `TrimEnd` trailing ECMAScript white space and line terminators; `TrimSlice`, `TrimIdempotent`, `TrimEmpty`, `TrimStartSuffix` and `TrimEndPrefix` state its properties. |
| JsText.TrimSlice | index.tsx:384-385 | `trim()` returns a contiguous slice of its input whose first and last characters are not white space. |
| JsText.TrimIdempotent | index.tsx:384-385 | Trimming twice is trimming once. |
| JsText.TrimEmpty | index.tsx:384-385 | A value trims to the empty string exactly when it is all white space, so such a URL is dropped. |
| JsText.TrimStartSuffix | index.tsx:384-385 | The leading part `trim` removes is all white space, and what remains does not start with white space. |
| JsText.TrimEndPrefix | index.tsx:384-385 | The trailing part `trim` removes is all white space, and what remains does not end with white space. |
| JsText.StripTrailingSlash | index.tsx:388-391 | `replace(/\/$/, '')` returns its input, or its input less one final `/`. The second happens exactly when the input ends in `/`. |
| JsText.StripOnlyOneSlash | index.tsx:388-391 | Of several trailing slashes only one is removed. |
| Districts.TryCandidate | index.tsx:402-423 | One loop iteration succeeds exactly when the response is ok and its body is an array of strings, and it then yields those strings. A transport failure yields the transport message. A non-ok status yields the status message (the body is not read). A parse failure yields the parse message. Any other body yields the malformed-data message. |
| Json.StringItems | index.tsx:410 | `Array.isArray(data) && data.every(item => typeof item === 'string')`: a result is present exactly when the value is an array of strings, and it then holds those strings in order. |
| Json.StringArray | index.tsx:410 | An array built from strings passes the all-strings check and gives the same strings back. |
| Districts.Resolve | index.tsx:400-424 | The fallback chain either names a candidate in range that loaded, together with the list it loaded, or has exactly one error message per candidate. |
| Districts.ResolveSuccess | index.tsx:402-417 | The chain succeeds at candidate k with list d exactly when k is in range, every earlier candidate failed and candidate k loaded d (short-circuit at the first success). |
| Districts.ResolveExhausted | index.tsx:405-408 | The chain is exhausted exactly when every candidate failed, and then its i-th message is the i-th candidate's failure message. |
| Districts.ResolveStep | index.tsx:418-423 | A failed candidate contributes its message and the loop continues with the next candidate. |
| Districts.PrefixPrefix | index.tsx:418-423 | Failures collected in two stretches combine in order. |
| Districts.UrlsPrefix | index.tsx:402-405 | The requests made for the first k candidates are the first k requests of the full list, and the rest of the list supplies the others. |
| Districts.CombinedError | index.tsx:426-428 | The final error is never empty. It is the fallback message when no message is non-empty, and otherwise the non-empty messages joined with `; `. |
| JsText.NonEmpty | index.tsx:427 | `filter(Boolean)` keeps exactly the non-empty strings and never lengthens the list. |
| JsText.NonEmptyAppend | index.tsx:427 | `filter(Boolean)` distributes over concatenation, so messages keep their order. |
| JsText.Join | index.tsx:427 | Joining nothing is empty, and joining one part is that part. |
| JsText.JoinEmpty | index.tsx:427 | Joining non-empty parts is empty exactly when there are none. |
| JsText.JoinAppend | index.tsx:427 | Joining a concatenation puts one separator between the two joins. |
| Districts.Settle | index.tsx:394-428 | (Specification.) The district state and the requests the loop over the candidates leaves: the not-configured error for no candidate, else the loaded list and label of the candidate `Resolve` names, with the URLs up to it, else the combined error with every URL. `App.TryInOrder` and `App.FetchDistricts` are proved equal to it; `SettleLoaded`, `SettleFailed`, `SettleErrorExclusive` and `SettleStatus` state its properties. |
| Districts.Refresh | index.tsx:376-430 | (Specification.) One whole `fetchDistricts` call: `Settle` of the candidates built from the two configured URLs, independent of the previous state. `RefreshNotConfigured`, `RefreshFallsBackToPrimary` and `RefreshMalformedPrimary` state its properties. |
| Districts.ResolveAt | index.tsx:400-416 | When the loop reaches a candidate that loads after i recorded failures, the chain's outcome is success at index i with that list. |
| Districts.SettleAt | index.tsx:409-416 | A chain that succeeds at index i leaves that candidate's list and label, with the first i+1 URLs requested. |
| Districts.SettleAfterAll | index.tsx:400-428 | A loop that records one failure per candidate and runs out leaves an empty list, no label, the combined error and every URL requested. |
| Districts.RefreshNotConfigured | index.tsx:394-398 | With both URLs blank, no request is made. The list is empty, no label is kept and the error is the not-configured message. |
| Districts.SettleLoaded | index.tsx:409-416 | When candidate k is the first that loads, the error is cleared and the list is candidate k's. The label is `name (url)` of candidate k. Exactly the first k+1 URLs were requested. |
| Districts.SettleFailed | index.tsx:426-428 | When all candidates fail, every URL was requested and the list stays empty. No label is kept, and the error combines the failure messages in order. |
| Districts.SettleErrorExclusive | index.tsx:376-428 | After any call, the error is set exactly when no label is kept. A set error is non-empty and comes with an empty list. No more URLs are requested than there are candidates. |
| Districts.RefreshFallsBackToPrimary | index.tsx:400-417 | If the secondary answers with a failing status and the primary with a list of names, the primary's names are shown under its label. Both URLs were requested, the secondary first. |
| Districts.RefreshMalformedPrimary | index.tsx:409-420 | With only the primary set and an ok body that is not an array of strings, the list is empty and the error is the malformed-data message for the primary. |
| Districts.App.constructor | index.tsx:368-373 | Initial App state: the two default URLs, an empty list, no error, no label, and loading. |
| Districts.App.SetPrimaryApiBaseUrl | index.tsx:436-438 | Editing the primary URL changes only that field. |
| Districts.App.SetSecondaryApiBaseUrl | index.tsx:440-442 | Editing the secondary URL changes only that field. |
| Districts.App.FetchDistricts | index.tsx:376-430 | The list, error, label and requested URLs after the call are exactly those of the specification for the current URLs and answers, whatever the previous state was. Loading is false on every path. |
| Districts.App.TryInOrder | index.tsx:400-428 | The `for...of` loop with `break` plus the final error reproduce the specified fallback chain: same outcome and same requested URLs. |
| Districts.StatusLinesExactlyOne | index.tsx:488-497 | Exactly one status paragraph is shown for every combination of state. |
| Districts.SettleStatus | index.tsx:488-497 | After a call: a failure shows the error paragraph. A non-empty list shows the success paragraph naming the candidate the fallback chain stopped at, the one whose list is shown. An empty successful list shows the could-not-load paragraph. |
| JsText.NatToDecimal | index.tsx:407 | `${status}` is a non-empty string of digits without a leading zero. |
| JsText.DecimalRoundTrip | index.tsx:407 | Reading the printed status back gives the status. |
| JsText.IntToDecimal | index.tsx:240 | `String(defaultValue)` of an integer is non-empty and starts with `-` exactly for negatives. After the sign come only digits, and they read back as the number's absolute value. |
| ExampleCard.DefaultText | index.tsx:239-243 | (Definition.) A declared default becomes `String(defaultValue)`; a parameter without one starts as `''`. |
| ExampleCard.InitialValues | index.tsx:236-246 | (Specification.) One dictionary write per declared parameter, in order; `InitialValuesKeys`, `InitialValuesInOrder` and `InitialValuesDefaults` state its properties. |
| ExampleCard.InitialParamValues | index.tsx:236-246 | The `forEach` initialiser yields the specified initial dictionary. |
| ExampleCard.InitialValuesKeys | index.tsx:236-246 | The initial dictionary has distinct keys, exactly the declared parameter names. |
| ExampleCard.InitialValuesInOrder | index.tsx:236-246 | With distinct names, the initial dictionary is one entry per declared parameter in declaration order. Each entry holds `String(defaultValue)` or `''`. |
| ExampleCard.InitialValuesDefaults | index.tsx:236-246 | With distinct names, the keys are the names in order and each name reads its parameter's default text. |
| Records.Keys | index.tsx:266 | `for...in` visits one key per entry, in insertion order. |
| Records.Get | index.tsx:267-268 | A key reads a value exactly when it is present. The value read is stored with the key. |
| Records.GetEntry | index.tsx:267-268 | With distinct keys, each key reads the value stored beside it. |
| Records.Put | index.tsx:252-254 | `{ ...prev, [k]: v }` keeps the key order; a new key goes last. |
| Records.PutGet | index.tsx:252-254 | After the update the edited key reads the new value, and every other key reads what it read before. |
| Records.PutNew | index.tsx:240-243 | Writing a key not yet present appends it. |
| Records.PutDistinct | index.tsx:252-254 | Updating keeps the keys distinct. |
| ExampleCard.Card.constructor | index.tsx:235-250 | A card starts with the initial dictionary of its parameters, no response, no error, no request URL, and not loading. |
| ExampleCard.Card.HandleParamChange | index.tsx:252-254 | Editing a parameter replaces that key's value and leaves the others untouched. |
| ExampleCard.Kept | index.tsx:266-269 | (Specification.) The entries whose value is truthy, in dictionary order; `KeptMembers`, `KeptAppend` and `KeptKeys` state its properties. |
| ExampleCard.RequestUrl | index.tsx:272 | (Definition.) `base` less one final `/`, then the path, `?` and the serialized kept entries; `RequestUrlQuery` states its shape. |
| ExampleCard.QueryEntries | index.tsx:265-270 | The `for...in` loop appends exactly the entries whose value is non-empty, in dictionary order. |
| ExampleCard.KeptMembers | index.tsx:267-268 | An entry is sent exactly when it is in the dictionary with a non-empty value, so `"0"` is sent. |
| ExampleCard.KeptAppend | index.tsx:266-269 | The filter distributes over concatenation, so the kept entries keep the dictionary order. |
| ExampleCard.KeptKeys | index.tsx:266-269 | The query holds key k exactly when `paramValues[k]` is a non-empty string, and then with that value. |
| ExampleCard.RequestUrlQuery | index.tsx:272 | The request URL is the base less one trailing `/`, the path and an always-present `?`. It is followed by a query string that parses back to exactly the kept entries. |
| ExampleCard.Card.HandleSubmit | index.tsx:256-288 | An empty base URL sets the missing-URL error, leaves everything else as it was and sends no request. Otherwise the request URL is recorded, loading ends false, and the state holds either the parsed response with no error (a `null` body counts as no response, as `setResponse(null)` stores), or no response with the mapped error message. |
| ExampleCard.ResponseOutcome | index.tsx:274-284 | The result is the body exactly when the response is ok and the body parsed. Every error message is non-empty. A transport failure or an unparsable body reports its own message, or `发生未知错误。` when that is empty. A failed status with a `null` body reports the TypeError of reading `error` on `null`. |
| ExampleCard.OrUnknown | index.tsx:283 | `err.message \|\| "发生未知错误。"` is never empty: a non-empty message is kept, and an empty one becomes `发生未知错误。`. |
| ExampleCard.StatusMessage | index.tsx:279 | (Definition.) The status fallback reads `请求失败，状态码: <status>`. |
| ExampleCard.ThrownMessage | index.tsx:279 | (Definition.) The message of what `throw new Error(data.error \|\| status message)` throws: `String(data.error)` when it is truthy and converts, the TypeError text `Cannot convert object to primitive value` when it is truthy and does not convert, the status message otherwise. |
| Json.ErrorProperty | index.tsx:279 | (Definition.) `data.error` for a body that is not `null`: the last `error` member of an object (see `Member`), and nothing for any other value. |
| Json.Truthy | index.tsx:279 | (Definition.) `null`, `false`, `0` and `""` are falsy; every other value, arrays and objects included, is truthy. |
| Json.ToJsString | index.tsx:279 | (Definition.) `String(x)`, or nothing where it throws: strings as themselves, numbers in decimal, booleans and `null` by name, arrays as their items joined with `,` (a `null` item as nothing), objects as `[object Object]`. An object with its own `toString` member does not convert, since no JSON value is callable. |
| Json.ToJsStringArray | index.tsx:279 | An array converts exactly when every item that is not `null` converts, so an object with its own `toString` anywhere inside makes `String` throw. |
| ExampleCard.ResponseUnconvertibleError | index.tsx:277-283 | A failed status whose `error` is an object with its own `toString` reports `Cannot convert object to primitive value`, the TypeError `new Error` raises while converting it. |
| ExampleCard.ResponseErrorField | index.tsx:277-279 | A failed status whose body has a non-empty `error` string reports that string. |
| ExampleCard.ResponseStatusCode | index.tsx:277-279 | A failed status whose body has no truthy `error` reports `请求失败，状态码: <status>`. |
| Json.Member | index.tsx:279 | A property is found exactly when some member has that name. Its value is that of the last member with the name, the one `JSON.parse` keeps. |
| Json.ToJsStringScalars | index.tsx:279 | `String(x)` of a string is the string itself, and of any other non-array, non-object value a non-empty text. An object converts to `[object Object]`, and fails to convert exactly when it has its own `toString`. |
| FormUrlEncoded.Encode | index.tsx:272 | (Definition.) A name or value is written as its UTF-8 bytes, space as `+`, letters, digits and `*-._` as themselves, every other byte as `%` and two upper-case hex digits. |
| FormUrlEncoded.Serialize | index.tsx:265-272 | (Definition.) `query.toString()`: each appended pair as its encoded name, `=` and its encoded value, the pairs joined with `&`; `ParseSerialize` states its round trip. |
| FormUrlEncoded.ParseSerialize | index.tsx:265-272 | Parsing `query.toString()` gives back exactly the appended pairs, in order. |
| FormUrlEncoded.SerializeCons | index.tsx:265-272 | One pair serializes as `name=value`, and further pairs follow after `&`. |
| FormUrlEncoded.ParseSerializedPair | index.tsx:265-272 | One serialized `name=value` parses back to its pair. |
| FormUrlEncoded.EncodeNoDelimiters | index.tsx:272 | A serialized name or value contains neither `&` nor `=`. |
| FormUrlEncoded.EncodeBytesChars | index.tsx:272 | The serializer writes only `+`, `%` and unescaped ASCII characters. |
| FormUrlEncoded.DecodeEncode | index.tsx:272 | Percent-decoding and UTF-8-decoding a serialized name or value gives it back. |
| FormUrlEncoded.DecodeEncodeBytes | index.tsx:272 | Percent-decoding the serialized bytes gives the bytes back. |
| FormUrlEncoded.DecodeByte | index.tsx:272 | Each byte's escape decodes to that byte, whatever follows. |
| FormUrlEncoded.HexDigitValue | index.tsx:272 | Each upper-case hex digit the serializer writes reads back as its value. |
| FormUrlEncoded.Utf8RoundTrip | index.tsx:272 | UTF-8 decoding inverts UTF-8 encoding. |
| FormUrlEncoded.Utf8DecodeChar | index.tsx:272 | Decoding reads one character's UTF-8 bytes back to that character. |
| FormUrlEncoded.Utf8 | index.tsx:272 | A character encodes to one to four bytes. |
| FormUrlEncoded.Utf8StringAppend | index.tsx:272 | UTF-8 encoding distributes over concatenation. |
| FormUrlEncoded.EncodeAppend | index.tsx:272 | Serializing a name distributes over concatenation. |
| FormUrlEncoded.EncodeBytesAppend | index.tsx:272 | Escaping bytes distributes over concatenation. |
| FormUrlEncoded.EncodeUnescaped | index.tsx:272 | Names made of ASCII letters, digits and `*-._` are written unchanged. |
| FormUrlEncoded.EncodeTian | index.tsx:272 | `天` is sent as `%E5%A4%A9`, the escapes of its UTF-8 bytes. |
| FormUrlEncoded.EncodeHe | index.tsx:272 | `河` is sent as `%E6%B2%B3`. |
| FormUrlEncoded.EncodeQu | index.tsx:272 | `区` is sent as `%E5%8C%BA`; with `EncodeAppend`, the district `天河区` is sent as the three escapes in a row. |
| FormUrlEncoded.EncodeChar3 | index.tsx:272 | A character of three UTF-8 bytes is sent as the escapes of those bytes, in order. |
| FormUrlEncoded.EncodeByteEscaped | index.tsx:272 | A byte of 0x80 or more is written as `%` and two upper-case hex digits. |
| FormUrlEncoded.SplitPrefix | index.tsx:272 | Splitting at the first separator gives the first piece, then the pieces of the rest. |
| FormUrlEncoded.SplitJoin | index.tsx:272 | Splitting a `&`-join of pieces without `&` gives the pieces back. |
| RoadsExample.RoadsNamesDistinct | index.tsx:177-183 | The `/roads` example declares five distinct names. |
| RoadsExample.RoadsEntries | index.tsx:177-183 | The `/roads` example's declared entries are district, street and name empty, page `1` and pageSize `20`. |
| RoadsExample.RoadsInitialValues | index.tsx:177-183 | The `/roads` card's form starts as district, street and name empty, page `1`, pageSize `20`. |
| RoadsExample.RoadsDefaultQuery | index.tsx:266-269 | Untouched, the `/roads` card sends only `page=1` and `pageSize=20`. |

## Left out

- JSX rendering, CSS, layout and the static documentation text do not compute anything. The same holds for `API_DOCUMENTATION` and every example except `/roads`, which is static data. Labels, placeholders and input types of parameters only affect rendering and are not modelled.
- `CopyButton` (clipboard and timers) calls foreign browser interfaces.
- Real requests: `fetch` and `response.json()` are a parameter of the model. The same URL always gets the same answer within one call.
- `console.log` and `console.warn` are logging only.
- React hooks: `useEffect` re-running `fetchDistricts` when a URL changes, batching of state updates, and mounting. `handleRefreshDistricts` only calls `fetchDistricts`.
- Overlapping `fetchDistricts` calls, and the stale response of an older call overwriting a newer one: the model runs one call at a time.
- Card state that a district dropdown reads (`districts`, `isLoadingDistricts`) only affects rendering.
- JSON numbers are unbounded integers. Floating-point numbers, and `String(defaultValue)` of a non-integer, are not modelled. JavaScript parses JSON numbers as doubles, which lose precision above 2^53, and `String(n)` prints a number of magnitude 1e21 or more in exponent form (`1e+21`). For such numbers `ToJsString(JNumber(n))` differs from `String(data.error)`.
- JavaScript objects list integer-like keys first, in numeric order, before the other keys. The dictionary model keeps plain insertion order for every key.
- Strings are sequences of Unicode scalar values. Lone surrogates, which `URLSearchParams` would replace by U+FFFD, cannot occur.
- ExampleCard.ResponseOutcome: for a non-ok response with a `null` body, and for an `error` value that `String` cannot convert, the TypeError texts are the ones the V8 engine produces. Other engines word them differently.
- ExampleCard.ResponseOutcome: `ok` is an independent flag of the answer, not derived from the status range 200-299.
- The full request URL of the `/roads` card, and the serialization of `天河区` as one string, are not computed as concrete strings. `RequestUrlQuery` states the URL's shape for every input, `RoadsDefaultQuery` gives the pairs sent, and `EncodeTian`, `EncodeHe`, `EncodeQu` and `EncodeAppend` give the district name's escapes.
