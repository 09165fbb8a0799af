# receiptrs: a verified model of the receipt scanner

`src/index.ts` scrapes the Serbian fiscal-receipt portal `suf.purs.gov.rs`.
A scan works in five steps:

1. It checks the receipt URL.
2. It loads the receipt viewer page, keeping its cookies.
3. It pulls two arguments (`viewModel.InvoiceNumber('…')`, `viewModel.Token('…')`) and sixteen `<span id="…">` labels out of the HTML.
4. It posts the two arguments to the specifications endpoint and recomputes the receipt's totals.
5. It reports exactly one of five outcomes: success, `INVALID_URL`, `EXTRACTION_FAILED`, `FETCH_FAILED` or `PROCESSING_ERROR`.

This project models that logic in Dafny and proves what the code promises.

| file | module | models |
|---|---|---|
| `wrappers.dfy` | `Wrappers` | `Option` and `Result`. |
| `text.dfy` | `Text` | The JavaScript string built-ins the code relies on. `trim` and `\s` use the ECMAScript white-space set, and there is `split` at the first separator, `includes`, `join`, `\D` removal and `parseInt` on digit strings. Also the leftmost-match scan that `String.prototype.match` performs. |
| `entities.dfy` | `Entities` | `decodeHtmlEntities`: seven global replace passes, each a leftmost, non-overlapping rewrite of the previous pass's output. |
| `cookies.dfy` | `Cookies` | `CookieManager` as a class. It holds the `Map` as a `map` plus its insertion-order key sequence. Its methods are proved against the functions `ParseHeader` and `Serialize`. |
| `extraction.dfy` | `Extraction` | The two argument patterns as first-occurrence scanners. Also `extractById`, `extractNumberById`, `extractReceiptMetadata`, and `extractInvoiceDataFromJS` as a method over the page reply. |
| `receipts.dfy` | `Receipts` | The receipt record, the normalisation of a parsed payload, and `fetchSpecifications` as a method over the server's reply. |
| `scanner.dfy` | `Scanner` | `ReceiptScanner.scanReceipt` as a method. It is specified by the function `Scan`, and the outcome ordering is proved about that function. |

The two network calls are inputs of the model:

- The viewer page is a `PageReply`. It is either a thrown error with its message, or a status with the `Set-Cookie` header and the body.
- The specifications server is a function from the request sent to a `SpecReply`. The reply is either a thrown error, or a status with a payload that parses to a receipt or fails to parse.

`Scan` returns the scan's result together with the list of calls made, so the model can state which requests are sent and what they carry.

Some behaviour needs care in the model:

- **The span pattern's `i` flag.** It is modelled as ASCII case folding of the literal `<span id="…"`. That is exact for the ASCII ids the code uses.
- **Backtracking of `\s*([^<]+)`.** It is modelled exactly. A tag followed only by white space captures the last white-space character, and that character trims away.
- **`String.fromCharCode`.** The code point is taken modulo 2^16. Every code in the surrogate range D800–DFFF becomes U+FFFD.
- **Falsy strings.** JavaScript truthiness of a string (`||`, `&&`, `!`) is the test "is not empty".

Two behaviours of the code are easy to misread:

- **Double-escaped input.** The passes run one after another, so `&amp;lt;` decodes to `<`, not to `&lt;` (`Entities.DecodeEscapedLt`).
- **Empty item list.** An empty `items` array is truthy, so a successful payload with an empty item list is still normalised: total 0, count 0 (`Receipts.Normalize`).

## Model

| member | source | states |
|---|---|---|
| Text.TrimStart | src/index.ts:108 | The result is a suffix of the input. Everything removed is white space, and the result does not start with white space. |
| Text.TrimEnd | src/index.ts:108 | The result is a prefix of the input. Everything removed is white space, and the result does not end with white space. |
| Text.TrimIsTrimmed | src/index.ts:108 | `trim` gives a contiguous slice of the input with no white space at either end. |
| Text.TrimKeepsTrimmed | src/index.ts:67 | Trimming a string that has no white space at its ends leaves it unchanged. |
| Text.TrimSkipsSpaces | src/index.ts:106-108 | White space in front of a string makes no difference to its trim. |
| Text.BeforeFirstAppend | src/index.ts:64-65 | `split(c)[0]` of a text that starts with a piece without `c` is that piece followed by `split(c)[0]` of the rest. |
| Text.TrimEndAppend | src/index.ts:64 | `trimEnd` of a text that starts with a piece not ending in white space keeps that piece and trims the rest. |
| Text.TrimAppend | src/index.ts:64 | `trim` of a text that starts with a piece having no white space at either end keeps that piece and trims the end of the rest. |
| Text.TrimBeforeFirstAppend | src/index.ts:64 | `split(';')[0].trim()` of a text that starts with a piece without `;` and with no white space at its ends keeps that piece and trims the end of the rest. |
| Text.Find | src/index.ts:64-65 | The index returned is the first occurrence of the character, or the length of the input when the character does not occur. |
| Text.BeforeFirst | src/index.ts:64-65 | `split(c)[0]` is the longest prefix without `c`. It stops at a `c` or at the end. |
| Text.AfterFirst | src/index.ts:65 | The remainder after the first `c` exists iff `c` occurs. The input is then the prefix, `c` and the remainder. |
| Text.Contains | src/index.ts:256 | `includes` is true iff the substring occurs at some position. |
| Text.KeepDigits | src/index.ts:114 | `replace(/\D/g, '')` keeps only decimal digits and never lengthens the input. |
| Text.KeepDigitsAppend | src/index.ts:114 | Removing the non-digits distributes over concatenation. |
| Text.KeepDigitsOfDigits | src/index.ts:114 | A string made only of digits is kept whole. |
| Text.DecimalStringValue | src/index.ts:114 | `parseInt` of the decimal numeral of `n` is `n`. |
| Text.DigitValue | src/index.ts:94-95 | A hex digit has a value below 16 and a decimal digit a value below 10. |
| Text.FirstMatchSpec | src/index.ts:107 | The leftmost-match scan finds nothing iff no position matches, and otherwise returns a match at a position before which none matches. |
| Text.FirstMatchAt | src/index.ts:107 | If position `k` matches and no earlier one does, the scan returns the match at `k`. |
| Entities.DigitRun | src/index.ts:94-95 | `[0-9A-Fa-f]+` (or `\d+`) takes the longest run of digits of the radix. |
| Entities.FromCharCode | src/index.ts:94-95 | `String.fromCharCode` is the character with that code for every code below 2^16 that is not a surrogate. |
| Entities.NumericAt | src/index.ts:94-95 | A numeric entity match starts with `&` and spans at least the prefix, one digit and `;`. |
| Entities.DecodeNumeric | src/index.ts:94-95 | A numeric pass never lengthens the text and is the identity on text without `&`. |
| Entities.ReplaceAll | src/index.ts:96-100 | A global replace by a replacement no longer than the pattern never lengthens the text. Text without the pattern's first character is unchanged. |
| Entities.DecodeNamed | src/index.ts:96-100 | The five named passes never lengthen the text and are the identity on text without `&`. |
| Entities.DecodeHtmlEntities | src/index.ts:92-101 | Text without `&` is returned unchanged, and decoding never lengthens the text. |
| Entities.DecodeEscapedLt | src/index.ts:92-101 | `&amp;lt;` decodes to `<`, because each pass reads the previous pass's output. |
| Entities.EscapedLtNumeric | src/index.ts:94-95 | The two numeric passes leave `&amp;lt;` unchanged. |
| Entities.EscapedLtNamed | src/index.ts:96-100 | The named passes turn `&amp;lt;` into `<`. |
| Entities.NumericEntityAt | src/index.ts:94-95 | For any non-empty numeral `ds` of the radix, `&#x` (or `&#`) + `ds` + `;` matches at the start of any text. It stands for `fromCharCode` of the numeral's value and spans exactly those characters. |
| Entities.NumeralAfterLead | src/index.ts:94-95 | After the lead, the greedy digit run of `ds` + `;` + rest is exactly `ds`, and the `;` follows it. |
| Entities.NumericAtDigits | src/index.ts:94-95 | A text that starts with the lead, whose digit run after it is `ds` and is followed by `;`, matches with the character of `ds`'s value. |
| Entities.NumericEntityDecoded | src/index.ts:94-95 | A numeric pass replaces a leading reference of any numeral by its character and continues after the `;`. |
| Entities.NumericChunkKept | src/index.ts:94-95 | A numeric pass copies a piece that starts no reference and has no further `&`. |
| Entities.ReplaceSkipsPlain | src/index.ts:96-100 | A replace pass copies a prefix that lacks the pattern's first character. |
| Entities.ReplaceOccurrence | src/index.ts:96-100 | A replace pass rewrites the leftmost occurrence after such a prefix and continues after it. |
| Entities.ReplaceChunkKept | src/index.ts:96-100 | A replace pass copies a piece that does not start the pattern and has no further pattern start. |
| Entities.EscapeCharShape | src/index.ts:94-100 | Escaping a character other than `&` gives either the character itself or a named entity of at least four characters with no further `&`. Such an entity is never `&amp;` and never starts a numeric reference. |
| Entities.NumericKeepsEscaped | src/index.ts:94-95 | Both numeric passes keep any text without `&` whose `<`, `>`, `"` and `'` are written as named entities. |
| Entities.AmpPassKeeps | src/index.ts:96 | The `&amp;` pass keeps such escaped text. |
| Entities.NamedPassStep | src/index.ts:97-100 | On text escaped from the `k`-th markup character on, the `k`-th of the `&lt;`, `&gt;`, `&quot;` and `&apos;` passes turns its own entity back into its character and keeps the later entities. |
| Entities.DecodeEscapedMarkup | src/index.ts:92-101 | Round trip for all texts without `&`: decoding the text with `<`, `>`, `"` and `'` escaped as named entities gives back the text. |
| Entities.DecodeNumericEntity | src/index.ts:92-101 | For either radix and any non-empty numeral, `decodeHtmlEntities` of one numeric reference is the single character `fromCharCode` gives for the numeral's value. |
| Entities.HexPassKeepsDecRef | src/index.ts:94 | The hexadecimal pass keeps a decimal reference with any numeral. |
| Entities.OneCharKept | src/index.ts:95-100 | A single character, `&` included, passes the decimal and the named passes unchanged. |
| Entities.DecodeLt | src/index.ts:97 | `&lt;` decodes to `<`. |
| Entities.DecodeAmp | src/index.ts:96 | `&amp;` decodes to `&`. |
| Entities.DecodeNumericExamples | src/index.ts:94-95 | `&#x41;` and `&#65;` both decode to `A`. |
| Entities.DecodeUpperXKept | src/index.ts:94-95 | `&#X41;` is not an entity for either pattern and is kept as written. |
| Entities.UpperXNumeric | src/index.ts:94-95 | Both numeric passes keep `&#X41;`. |
| Entities.UpperXPass | src/index.ts:94-95 | Neither numeric pattern matches `&#X41;`. |
| Entities.UpperXNamed | src/index.ts:96-100 | The named passes keep `&#X41;`. |
| Entities.HexExample | src/index.ts:94 | The hex pass decodes `&#x41;` to `A`. |
| Entities.DecExample | src/index.ts:94-95 | The hex pass keeps `&#65;` and the decimal pass decodes it to `A`. |
| Entities.DecKeptByHexPass | src/index.ts:94 | The hex pass keeps `&#65;`. |
| Entities.DecDecoded | src/index.ts:95 | The decimal pass decodes `&#65;` to `A`. |
| Entities.DecEntityAt | src/index.ts:95 | The decimal pattern matches all five characters of `&#65;` and yields `A`. |
| Entities.NamedKeepsUnmatched | src/index.ts:96-100 | A string whose only `&` is at its start, and which does not begin with one of the five entities, passes the named passes unchanged. |
| Entities.NumericKeepsUnmatched | src/index.ts:94-95 | A string with no match at its leading `&` and no other `&` passes a numeric pass unchanged. |
| Entities.DecodeNumericPlain | src/index.ts:94-95 | A character other than `&` is copied and the pass continues after it. |
| Entities.NumericSkipsPlain | src/index.ts:94-95 | A prefix without `&` is copied unchanged in front of the decoded rest. |
| Entities.DigitRunOfNumeral | src/index.ts:94-95 | The digit run of a numeral followed by a non-digit is the whole numeral. |
| Entities.HexPassKeepsDecimal | src/index.ts:94 | The hex pass keeps every decimal entity `&#n;`. |
| Entities.DecPassDecodes | src/index.ts:95 | The decimal pass decodes the decimal-entity encoding of any text in the Basic Multilingual Plane outside the surrogates. |
| Entities.DecodeEncodeDecimal | src/index.ts:92-101 | Round trip: decoding the decimal-entity encoding of such a text, when it has no `&`, gives back the text. |
| Cookies.PutWellFormed | src/index.ts:67 | `Map.set` keeps every key listed exactly once in the insertion order. |
| Cookies.PutOrder | src/index.ts:67 | `Map.set` appends a new key, keeps an existing key in its place, and stores the value. |
| Cookies.AbsorbNext | src/index.ts:63-69 | The `forEach` handles the strings one by one, in order. |
| Cookies.AbsorbWellFormed | src/index.ts:63-69 | The loop over the cookie strings keeps the table well formed. |
| Cookies.ParseHeader | src/index.ts:58-74 | A falsy header (`undefined`, `''`) leaves the table unchanged. Any other header, an empty array included, leaves a `localization` key. |
| Cookies.ParseHeaderWellFormed | src/index.ts:58-74 | `parseCookies` keeps the table well formed. |
| Cookies.Entries | src/index.ts:77-80 | One string is pushed per key. |
| Cookies.EntriesAt | src/index.ts:78-80 | The `i`-th string pushed is the `i`-th key in insertion order, `=`, and its value. |
| Cookies.Serialize | src/index.ts:81 | An empty table serialises to `localization=sr-Cyrl-RS`. |
| Cookies.ParseLineShape | src/index.ts:64-67 | An entry read from a string has a non-empty name. Neither name nor value has white space at its ends or contains `;` or `=`. |
| Cookies.ParseLineOfEntry | src/index.ts:64-67 | `name=value` followed by attributes starting with `;` is read back as exactly that name and value. |
| Cookies.ParseLineSplit | src/index.ts:64-67 | Given the first segment split at its first `=`, the entry is the trimmed name and the trimmed text before the next `=`, when both are non-empty. |
| Cookies.ParseLineSecondEquals | src/index.ts:64-67 | In `name=value=more`, whatever follows the second `=` (more `=`, a `;`, attributes), the value is the text between the first and the second `=`. |
| Cookies.ParseLineWhen | src/index.ts:64-68 | A string yields an entry iff its trimmed first segment has a non-empty piece before its first `=`, has an `=`, and has a non-empty piece between the first and the next `=`. Otherwise `forEach` skips it. |
| Cookies.ParseLineSecondEqualsExample | src/index.ts:65 | `a=b=c` gives the entry `a`, `b`. |
| Cookies.ParseLineAttributes | src/index.ts:64 | Attributes after the first `;` are ignored: `SESSION=xyz; Path=/` gives `SESSION`, `xyz`. |
| Cookies.ParseLineSkipsEmptyName | src/index.ts:66 | `=x` is skipped because the name piece is empty. |
| Cookies.ParseLineSkipsMissingValue | src/index.ts:66 | `a` is skipped because there is no value piece. |
| Cookies.ParseLineSkipsEmptyValue | src/index.ts:66 | `a=` is skipped because the value piece is empty. |
| Cookies.AbsorbLastWins | src/index.ts:63-69 | After the loop, a name is in the table iff it was there before or some string names it. Its value is the one from the last string naming it, otherwise its old value. |
| Cookies.LastValueNamed | src/index.ts:63-69 | Some string gives a value for a name iff that name is among the names the strings produce. |
| Cookies.LocaleEntry | src/index.ts:71-73 | After a non-falsy header, `localization` holds the value from the last string that names it, failing that its old value, and only failing both `sr-Cyrl-RS`. A server value is never replaced by the default. |
| Cookies.AbsorbOrder | src/index.ts:63-69 | After the loop, the key order is the old order followed by the newly named keys in order of first appearance. An overwrite keeps its position. |
| Cookies.StepEntry | src/index.ts:64-67 | Reading a clean `name=value` string is `Map.set(name, value)`. |
| Cookies.ReplayNames | src/index.ts:63-80 | Parsing the serialised entries of distinct clean names into an empty table gives back the table restricted to those names, in the same order. |
| Cookies.Replay | src/index.ts:63-80 | Round trip: every clean table is rebuilt, values and order, by parsing its own `name=value` entries. |
| Cookies.CookieManager.constructor | src/index.ts:56 | A new manager holds an empty `Map`. |
| Cookies.CookieManager.Set | src/index.ts:67 | `this.cookies.set(name, value)` updates the table as `Map.set` does and keeps it well formed. |
| Cookies.CookieManager.Visit | src/index.ts:64-68 | The `forEach` callback updates the table by one string. |
| Cookies.CookieManager.ForEach | src/index.ts:63-69 | The loop leaves the table that results from absorbing every string in order. |
| Cookies.CookieManager.ParseCookies | src/index.ts:58-74 | `parseCookies` leaves exactly `ParseHeader` of the old table and keeps it well formed. |
| Cookies.CookieManager.GetCookieString | src/index.ts:76-82 | The loop returns exactly `Serialize` of the table. |
| Extraction.QuotedArgAt | src/index.ts:169-170 | A captured argument is non-empty and contains no `'` or `"`. |
| Extraction.QuotedArgAtMeans | src/index.ts:169-170 | The scanner at position `i` returns `arg` iff the pattern `call` + quote + `arg` + quote + `)` occurs at `i`. |
| Extraction.ArgAtUnique | src/index.ts:169-170 | At a given position the pattern captures at most one argument. |
| Extraction.FirstArg | src/index.ts:172-176 | The first-occurrence argument, when found, is non-empty and quote-free. |
| Extraction.FirstArgSound | src/index.ts:172-176 | A found argument is a match of the pattern at some position. |
| Extraction.FirstArgAt | src/index.ts:172-176 | The match at the first position where the pattern matches is the one returned. |
| Extraction.FirstArgNone | src/index.ts:172-176 | Nothing is found iff the pattern matches nowhere. |
| Extraction.FirstArgLeading | src/index.ts:169-176 | A call at the start of the page, with any combination of quotes, yields its argument. |
| Extraction.MixedQuotesExample | src/index.ts:169 | `viewModel.InvoiceNumber('12AB")` yields `12AB`: the quote kinds may differ. |
| Extraction.ExtractTokensBoth | src/index.ts:175-178 | The arguments are extracted iff both patterns match, and then they are the two captures. |
| Extraction.TagEnd | src/index.ts:106 | The end of a matched opening tag lies within the page. |
| Extraction.TagEndAt | src/index.ts:106 | At a case-insensitive occurrence of `<span id="ID"`, the tag ends just after the first `>`. |
| Extraction.TextFromAt | src/index.ts:106 | `[^<]*` after the tag runs up to the next `<` or the end of the page. |
| Extraction.GroupFromText | src/index.ts:106 | `\s*([^<]+)` matches after the tag iff some text precedes the next `<`. Its trimmed capture is that text, trimmed. |
| Extraction.GroupTrim | src/index.ts:106-108 | Whichever way backtracking splits leading white space from the capture, the trimmed capture is the trimmed text. |
| Extraction.GroupFromCases | src/index.ts:106 | The three backtracking cases: text after the white space, white space only (the last white-space character is captured), and nothing. |
| Extraction.SpacesBeforeText | src/index.ts:106 | The white space before the text is part of the text up to the next `<`. |
| Extraction.SpanCaptureText | src/index.ts:106-108 | The span pattern matches at `i` iff a tag is there followed by some text, and the trimmed capture is that text, trimmed. |
| Extraction.ExtractByIdAbsent | src/index.ts:105-110 | A span id that does not occur gives `''`. |
| Extraction.ExtractByIdNoTags | src/index.ts:105-110 | A page without `<` gives `''` for every id. |
| Extraction.FirstSpanAt | src/index.ts:106-107 | The leftmost tag with text after it is the match used. |
| Extraction.ExtractByIdFirst | src/index.ts:105-110 | `extractById` is the entity-decoded, trimmed text after the first tag that has text. |
| Extraction.LeadingTagEnd | src/index.ts:106 | A tag at the start of the page, in any letter case and with attributes, ends after its `>`. |
| Extraction.TextBeforeLt | src/index.ts:106 | Text without `<` followed by `<` or the end is read whole. |
| Extraction.LeadingTag | src/index.ts:106 | The text after a leading tag is the text up to the next `<`. |
| Extraction.ExtractByIdLeading | src/index.ts:105-110 | For a page that starts with the tag, `extractById` trims its text and then decodes the entities. |
| Extraction.KeepDigitsNone | src/index.ts:114 | A text without digits keeps nothing. |
| Extraction.LenientNoDigits | src/index.ts:112-116 | `extractNumberById` gives 0 when no digit remains (`parseInt('')` is `NaN`). |
| Extraction.LenientNumeral | src/index.ts:112-116 | A decimal numeral gives its value. |
| Extraction.LenientSkips | src/index.ts:114 | A non-digit anywhere in the text makes no difference. |
| Extraction.BuyerIdAbsent | src/index.ts:124 | `buyerId` is absent iff its label is `''`, and otherwise is the label. |
| Extraction.MetadataOfUntaggedPage | src/index.ts:118-135 | A page without tags gives empty text fields, zero counters and no buyer. |
| Extraction.JarAfterPageWellFormed | src/index.ts:163-165 | Reading the page's cookies keeps the table well formed. |
| Extraction.ExtractOutcomeSpec | src/index.ts:160-190 | A thrown request is an error. A result comes back iff the status is 200 and both arguments are found, and it carries them and the page's metadata. |
| Extraction.ExtractInvoiceData | src/index.ts:141-190 | The method returns `ExtractOutcome`. The cookie table reads the `Set-Cookie` header only on a 200 response. |
| Receipts.ReduceIsSum | src/index.ts:235 | The `reduce` from 0 is the sum of the item totals. |
| Receipts.SumAppend | src/index.ts:235 | The sum of the item totals distributes over concatenation. |
| Receipts.NormalizeTotals | src/index.ts:233-237 | A successful payload with items gets the sum of the item totals, the item count and the extracted invoice number. Nothing else changes. |
| Receipts.NormalizeSkips | src/index.ts:233-239 | Any other payload is returned unmodified. |
| Receipts.NormalizeIgnoresServer | src/index.ts:233-237 | The server's own invoice number, total and count make no difference. |
| Receipts.NormalizeIdempotent | src/index.ts:233-237 | Normalising twice is normalising once. |
| Receipts.NormalizeExample | src/index.ts:233-237 | Items of 100 and 250 give total 350 and count 2, whatever the server claimed. |
| Receipts.FetchOutcomeSpec | src/index.ts:224-245 | An error iff the request throws or a 200 body does not parse. A receipt iff the status is 200 and the body parses, and it is the normalised payload. Any other status returns `null`. |
| Receipts.FetchSpecifications | src/index.ts:193-245 | The method sends the referer, both arguments and the manager's cookie string, and returns `FetchOutcome` of the reply. |
| Scanner.ScanReceipt | src/index.ts:254-303 | The method returns exactly `Scan`: the result and the calls made. |
| Scanner.AfterExtraction | src/index.ts:276-295 | After the page request, the method returns exactly `Decide` for that outcome and the manager's cookie string. |
| Scanner.Envelope | src/index.ts:254-303 | `success` iff `data` is present and `error` is absent. A failure always names its code. Success carries the success message. |
| Scanner.DecideRefusal | src/index.ts:256-262 | `INVALID_URL` iff the URL is invalid, and then no call is made. Otherwise the page is requested first. |
| Scanner.DecidePost | src/index.ts:266-279 | The POST is made iff the page yields its arguments. It carries them, the URL and the cookie header, and there are never more than two calls. |
| Scanner.DecideFetched | src/index.ts:279-301 | After the POST: a thrown fetch gives `PROCESSING_ERROR` with its message. `null` or `success` false gives `FETCH_FAILED`. Otherwise success, with the metadata attached. |
| Scanner.DecideBeforePost | src/index.ts:266-301 | A thrown page request gives `PROCESSING_ERROR` with its message, and `null` gives `EXTRACTION_FAILED`. Only the page is requested. |
| Scanner.InvalidUrlFirst | src/index.ts:256-262 | `INVALID_URL` exactly for an empty or off-portal URL, and before any request. |
| Scanner.EmptyUrlRefused | src/index.ts:256-261 | The empty URL gives `INVALID_URL` with its message and no call. |
| Scanner.ExtractionFailedWhen | src/index.ts:266-274 | `EXTRACTION_FAILED` iff the page came back without status 200 or without both arguments. There is then no POST. |
| Scanner.PostRequest | src/index.ts:266-279 | The POST is made iff the page yields both arguments. It carries them, the URL as referer and the cookies the page set. |
| Scanner.PostCookieLocale | src/index.ts:71-81 | The POST's cookies always include `localization`: the default header when the page set none, otherwise a table holding that key. |
| Scanner.AfterPost | src/index.ts:279-301 | In terms of the server's reply to the request sent: `PROCESSING_ERROR` iff it throws or the body does not parse. `FETCH_FAILED` iff the status is not 200 or `success` is false. Success otherwise. |
| Scanner.PageThrewMessage | src/index.ts:296-301 | A page request that throws ends in `PROCESSING_ERROR` and makes no POST. The message is `Error processing receipt: ` then `Failed to extract invoice data: ` then the error's message. |
| Scanner.SuccessData | src/index.ts:279-288 | On success the page came back with status 200 and both arguments. The data is the server's receipt, normalised, with the page's metadata attached. |

## Left out

- axios configuration is not modelled: the 15 s timeout and the browser-like request headers other than `Cookie` and `Referer`. Each call's outcome is an input instead (`PageReply`, and the server as a function).
- A reply's status has the type `Accepted`, the integers below 400, because `validateStatus` makes axios throw on 400 and above. Such a reply is the `PageThrew` or `SpecThrew` case, which ends in `PROCESSING_ERROR`. A status from 300 to 399 reaches the code and is covered by "status other than 200".
- async/await and promises are not modelled. After the calls become inputs, the flow is sequential.
- `JSON.parse` of a string body, and the choice between a string and an already-parsed object, are not modelled. The body is a `Payload`: a parsed receipt, or a parse failure with its message.
- Bodies that parse to something other than a receipt-shaped object are not modelled.
- `error instanceof Error ? error.message : 'Unknown error'` is not modelled. Every thrown error carries a message string in the model.
- `encodeURIComponent` of the two form fields is not modelled. The request carries the raw arguments.
- `createAxiosInstance` and the exported `scanReceipt` wrapper are not modelled. They only construct and delegate.
- The `catch` in `extractReceiptMetadata` returns `null` only if something inside throws, and nothing there can. Metadata extraction is therefore total, so on success the metadata is always attached.
- The in-place assignments to `parsedJson` and to `result.metadata` are modelled as datatype updates of a freshly received value, which nothing else aliases.
- The JSON field `label` of an item is called `taxLabel`, because `label` is a Dafny keyword.
- Receipts.ReduceIsSum: item totals are exact reals, so floating-point rounding of the JavaScript sum is not modelled.
- Extraction.LenientNumeral: `parseInt` is exact on unbounded naturals, so loss of precision above 2^53 is not modelled.
- Text.DigitsValue: `parseInt` of a numeral is its exact value for every length, on the numeric entity passes and in `Text.DecimalStringValue` alike. JavaScript rounds a value above 2^53 to a double and reads a numeral of more than about 308 digits as `Infinity`, and `String.fromCharCode` then takes that double modulo 2^16 (`Infinity` gives U+0000). The model keeps the exact value. So `&#x20000000000041;` decodes to `A` in the model but to `@` in JavaScript. The rows that speak of "the numeral's value" (`Text.DecimalStringValue`, `Entities.NumericEntityAt`, `Entities.NumericAtDigits`, `Entities.NumericEntityDecoded`, `Entities.DecodeNumericEntity`) match JavaScript only for values below 2^53.
- Entities.FromCharCode: code points are taken modulo 2^16, and every surrogate code D800–DFFF becomes U+FFFD, because a Dafny `char` cannot hold a surrogate. Both halves of a pair are replaced, so a pair written as two entities (`&#55357;&#56832;`) decodes to two U+FFFD characters, not to the one astral character JavaScript would show. Only non-surrogate codes of numerals below 2^53 are modelled exactly (see `Text.DigitsValue`).
- The `i` flag of the span pattern folds ASCII letters only, which is exact for the fixed ASCII ids the code looks up.
