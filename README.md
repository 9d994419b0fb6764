# Product-page field extraction, modelled in Dafny

This project models the decision logic of a scraper that fetches one
marketplace product page by its catalog identifier (ASIN) and turns it into
a flat record: URL, name, brand, images, price, MRP, discount, rating,
review count, availability and category path. If the fetch fails or the
parse raises, the scraper returns an error record instead.

The modelled core consists of three parts:

- `safe_extract` (module `Extract`) tries an ordered list of XPath queries
  against the page. It skips every query that raises or returns an empty
  list. The first query with a non-empty result is rendered in one of three
  modes: single, join or multiple. When no query matches, it returns
  `"N/A"`, or `[]` in multiple mode.
- The assembly rules of `parse_amazon_page` (module `Scraper`):
  - building the URL and the error record for a status other than 200;
  - the "first truthy value" chains for the product name and the price;
  - the "N/A"-versus-`None` handling of the numeric fields;
  - the main-image tie-break;
  - the comma join of the other images;
  - the 1-indexed `l1..lN` category map.
- `clean_text` and `extract_numeric` from utils.py (module `Utils`). They
  sit on Python string built-ins, which are modelled in module `PyText`:
  `strip` with Python's exact whitespace set, `sep.join`, `split`,
  `replace(pat, "")`, and `str(n)`/`int(s)` on ASCII digits.

The page is not parsed. It is a query oracle, `Tree = string -> Eval`: for
each query string it either raises (`Raised`) or returns a list of strings
(`Nodes`), as `tree.xpath` does. The rest of the outside world comes in as
inputs to `ParsePage`:

- the response status;
- whether the page parsed (`Unparseable(message)` stands for an lxml
  exception);
- the decoded turbo-checkout header: absent, a string, or a decoding step
  that raised;
- the decoded JSON display price, as an optional string.

Note that the model follows the code in three behaviours that are easy to
misread:

- `other_images` is `""` for at most one thumbnail. It is also `""` for
  exactly two thumbnails when the second is the empty string.
- Single mode returns the first node of the first non-empty result, stripped,
  even when that node is blank. It does not look for the first non-blank
  match.
- When their lookup misses, the numeric fields other than the price stay the
  string `"N/A"`. They do not become null.

`ParsePage` builds the record as the code does, including the product price
that `Scraper.ProductPriceAsWritten` computes. `ParsePageCorrected` is the
same record with the corrected price described under "## Findings".

## Model

| member | source | states |
|---|---|---|
| `Extract.FirstHit` | scraper.py:46-56 | The loop's result is the index of the first query that evaluates without raising to a non-empty list. Every earlier query raised or was empty. `None` means no query hit. |
| `Extract.SafeExtract` | scraper.py:37-57 | For the first hitting query: multiple mode returns its list unchanged, join mode returns the space-join of its stripped non-blank nodes, and single mode returns its first node stripped. Multiple mode wins over join. With no hit the result is `[]` in multiple mode and `"N/A"` otherwise. |
| `Extract.BareStringIsSingleton` | scraper.py:43-44 | A bare query string behaves exactly like a one-element query list. |
| `Extract.QueryList` | scraper.py:43-44 | A bare query string becomes the one-element list of that query. A list of queries is used as given, in order. |
| `Extract.LaterQueriesIgnored` | scraper.py:49-54 | Once a query hits, appending more queries does not change the result. |
| `Extract.MissesSkipped` | scraper.py:47-56 | A prefix of queries that all raise or return nothing can be dropped without changing the result. |
| `Extract.OnlyPrefixConsulted` | scraper.py:46-54 | Two pages that answer the queries up to the first hit in the same way give the same result. What either does with later queries has no effect. |
| `Extract.BlankFirstHitIsEmpty` | scraper.py:54 | In single mode, a whitespace-only first node of the first hit yields `""`. It yields neither the next query's value nor `"N/A"`. |
| `Extract.NonBlank` | scraper.py:53 | The filtered list is no longer than the hit, and every element is non-empty and stripped. |
| `Extract.NonBlankAppend` | scraper.py:53 | The filter works node by node: filtering a concatenation filters each part and keeps their order. |
| `Extract.NonBlankSingle` | scraper.py:53 | One node survives, stripped, exactly when it is not blank once stripped. Otherwise it is dropped. |
| `Extract.JoinStripped` | scraper.py:53 | The joined string has no surrounding whitespace. It is `""` exactly when no node survives the filter. |
| `Extract.JoinStrippedShape` | scraper.py:53 | The join-mode string has no surrounding whitespace. It is `""` exactly when every node of the hit is blank. |
| `Extract.JoinStrippedSingle` | scraper.py:53 | A single node that is non-empty and already stripped joins to itself. |
| `Scraper.AsinOf` | scraper.py:61 | A string has an identifier exactly when it has the form prefix + identifier + suffix. Rebuilding the URL from that identifier gives the string back. |
| `Scraper.UrlRoundTrip` | scraper.py:61 | Stripping the fixed prefix and suffix from the constructed URL recovers the identifier. |
| `Scraper.ProductUrl` | scraper.py:61 | The URL is the fixed prefix, then the identifier, then the fixed suffix. Each part can be read back at its position. |
| `Scraper.ParsePage` | scraper.py:60-152 | Every record carries the constructed URL. A status other than 200 gives exactly the keys `error` and `product_url`, with the fixed message. A parse or turbo-decoding exception gives an error record with that exception's message and product name `"N/A"`. Otherwise the result is a product record in rupees, whose price is the as-written `ProductPriceAsWritten`. |
| `Scraper.Assemble` | scraper.py:135-149 | The product record carries the URL, the rupee currency, a non-empty name and the given price. |
| `Scraper.ParsePageCorrected` | scraper.py:60-152 | The record with the corrected price. It has the same kind as `ParsePage`'s record and is identical apart from `product_price`, which is `ProductPrice`. |
| `Scraper.ParsePageCorrectedAgrees` | scraper.py:91-94 | With a truthy JSON price, a formatted-price miss, or no product page at all, the corrected record equals the record as written. |
| `Scraper.RecordLosesFormattedPrice` | scraper.py:91-94 | Record-level finding: a product page without a JSON price whose formatted price shows n is recorded with price `None` as written and n corrected. |
| `Scraper.TurboName` | scraper.py:77 | The header name, with every "Buy now:" removed, has no surrounding whitespace. |
| `Scraper.ProductName` | scraper.py:78 | The name is never empty, and it is the turbo name, the title or `"N/A"`. |
| `Scraper.ProductPriceAsWritten` | scraper.py:91-94 | As-written price chain, with the formatted lookup in multiple mode. Any value it yields is an integer; `PriceAsWrittenDropsFormatted` and `PriceAsWrittenAgreesOtherwise` fix where it returns `None`. |
| `Scraper.FormattedPrice` | scraper.py:91 | Corrected formatted-price source: always a string without surrounding whitespace. It is `""`, which is falsy, on a miss. |
| `Scraper.ProductPrice` | scraper.py:91-94 | Corrected price chain. Any value it yields is an integer (integer mode); `ProductPriceFromFormatted` states which. |
| `Scraper.RawPrice` | scraper.py:93 | `raw_price` is always truthy. It is the JSON price if that is truthy, else the formatted price if truthy, else the fallback price if truthy, else `"N/A"`. |
| `Scraper.PriceOf` | scraper.py:94 | A list as `raw_price` gives `None`, standing for the TypeError that `extract_numeric` swallows. A string gives `extract_numeric` of it in integer mode, so any value is an integer. |
| `Scraper.NumericOf` | scraper.py:104-112 | The field is `"N/A"` exactly when the lookup gave `"N/A"`. Otherwise it holds `extract_numeric` of the looked-up text, which is a float exactly in float mode. |
| `Scraper.MrpOf` | scraper.py:101 | The MRP is `"N/A"` exactly when the lookup gave `"N/A"`. Otherwise it holds `extract_numeric` of the text with every "M.R.P.:" removed, in integer mode. |
| `Scraper.FirstTruthy` | scraper.py:78 | `a or b or ... or last`: the first truthy value, or `last` when there is none. |
| `Scraper.ProductNameChain` | scraper.py:77-78 | The name is the turbo-header name if non-empty, else the title if non-empty, else `"N/A"`. |
| `Scraper.TurboNameDropsLabel` | scraper.py:77 | A header of the form "Buy now:" + name, where the name does not repeat the label, gives the stripped name. |
| `Scraper.ProductPriceFromJson` | scraper.py:93-94 | A non-empty JSON display price is parsed, whatever the page shows. This holds both as written and corrected. |
| `Scraper.ProductPriceFromFormatted` | scraper.py:91-94 | Corrected price: without a JSON price, a formatted price that is not all blank is parsed from its stripped, space-joined nodes. |
| `Scraper.ProductPriceNoSource` | scraper.py:93-94 | With no JSON, formatted or fallback price, the raw price is `"N/A"` and the product price is `None`. |
| `Scraper.PriceAsWrittenDropsFormatted` | scraper.py:91-94 | As written: with no JSON price and a formatted-price hit, the price is `None`. |
| `Scraper.PriceAsWrittenAgreesOtherwise` | scraper.py:91-94 | When the JSON price is truthy or the formatted lookup misses, the as-written and corrected prices agree. |
| `Scraper.PriceAsWrittenLosesNumber` | scraper.py:91-94 | A page without a JSON price whose formatted price shows the number n gets price `None` as written and n corrected. |
| `Scraper.PriceAsWrittenCounterexample` | scraper.py:91 | For every n there is a page on which the two prices differ in this way. |
| `Scraper.FallbackPriceExample` | scraper.py:92-94 | A page whose only price source is a fallback price-whole element reading "1,299" has product price 1299. |
| `Scraper.MissingNumbers` | scraper.py:94-112 | When their lookups miss, the MRP, discount, rating and review count stay the string `"N/A"` without calling `extract_numeric`, while the product price is `None`. |
| `Scraper.MrpLabelDropped` | scraper.py:101 | The "M.R.P.:" label is removed before parsing, so a labelled MRP reads as the text after the label. |
| `Scraper.MrpLabelBreaksParse` | scraper.py:101 | Without that removal, the label's three dots would make every MRP unparseable. |
| `Scraper.MainImage` | scraper.py:117 | The second image of the first lookup wins whenever there are two or more, whatever the second lookup holds. Otherwise the first image of the second lookup, then the only image of the first lookup, then `"N/A"`. The result is always one of the images or `"N/A"`. |
| `Scraper.OtherImages` | scraper.py:120 | At most one thumbnail gives `""`. Exactly two give the second one unchanged. |
| `Scraper.OtherImagesEmptyIff` | scraper.py:120 | `other_images` is `""` exactly when there is at most one thumbnail, or exactly two with an empty second. |
| `Scraper.OtherImagesRoundTrip` | scraper.py:120 | When no URL contains a comma, splitting `other_images` on commas gives back every thumbnail after the first, in order. |
| `Scraper.MissingTexts` | scraper.py:115-133 | When their lookups miss, brand, availability and main image are `"N/A"`, other images is `""`, and the category map is empty. |
| `Scraper.CategoryHierarchy` | scraper.py:133 | Every value in the map is stripped. |
| `Scraper.LevelKey` | scraper.py:133 | Every key starts with "l" and has at least one character after it. |
| `Scraper.LevelKeyReads` | scraper.py:133 | The key for index i is "l" followed by digits whose value is i + 1. |
| `Scraper.CategoryHierarchyKeys` | scraper.py:133 | The keys are exactly `l1..lN` for N breadcrumbs, all distinct, so there are N of them and none for no breadcrumbs. |
| `Scraper.CategoryHierarchyValues` | scraper.py:133 | The key for index i (`l{i+1}`) holds the i-th breadcrumb, stripped. |
| `Scraper.LevelKeyInjective` | scraper.py:133 | Different indices give different keys. |
| `Utils.RemoveSymbols` | utils.py:6 | The result contains none of the five characters and is no longer than the input. |
| `Utils.CleanText` | utils.py:3-6 | Missing or empty text gives `"N/A"`. Otherwise the result contains none of the five deleted characters and has no surrounding whitespace. |
| `Utils.CleanTextKeeps` | utils.py:6 | Text with none of the five characters and no surrounding whitespace is returned unchanged, so every other character is kept, in order. |
| `Utils.CleanTextKeepsRupee` | utils.py:6 | A correctly decoded rupee sign (U+20B9) is kept. |
| `Utils.CleanTextDropsMisdecodedRupee` | utils.py:6 | The rupee sign mis-decoded as U+00E2 U+201A U+00B9 is deleted. |
| `Utils.CleanTextBlank` | utils.py:4-6 | Non-empty text that is blank once the symbols are deleted cleans to `""`, not `"N/A"`. |
| `Utils.CleanTextIdempotent` | utils.py:3-6 | Cleaning a non-empty cleaned text changes nothing. |
| `Utils.RemoveSymbolsAppend` | utils.py:6 | Deletion works character by character: cleaning a concatenation cleans each part. |
| `Utils.Sanitize` | utils.py:11 | The result contains only digits and dots and is no longer than the input. |
| `Utils.SanitizeAppend` | utils.py:11 | Sanitising works character by character, so the result is the in-order subsequence of the input's digits and dots. |
| `Utils.SanitizeKeeps` | utils.py:11 | A string of digits and dots is its own sanitised form. |
| `Utils.SanitizeIdempotent` | utils.py:11 | Sanitising twice is the same as sanitising once. |
| `Utils.SanitizeDecimal` | utils.py:11 | Text without digits or dots around a decimal `w.f` sanitises to exactly `w.f`. |
| `Utils.ExtractNumeric` | utils.py:8-14 | When a value comes back, it is a float exactly in float mode. Which value comes back is fixed by the lemmas below. |
| `Utils.FloatLiteralIff` | utils.py:12 | On digits and dots, `float()` succeeds exactly when there is at least one digit and at most one dot. |
| `Utils.FloatLiteralWithDot` | utils.py:12 | The same equivalence for strings that contain a dot. |
| `Utils.DotParts` | utils.py:12 | Before the first dot there are only digits. After it, there are only digits exactly when there is no second dot. That dot is counted once. |
| `Utils.ExtractNumericNoneIff` | utils.py:10-14 | The result is `None` exactly when the sanitised string has no digit or has two or more dots. It is never 0 for `""`, `"N/A"` or `"."`. |
| `Utils.ExtractNumericTruncates` | utils.py:12 | Integer and float mode succeed together, and the integer is the float value's integer part. |
| `Utils.ExtractNumericOfDecimal` | utils.py:11-12 | A printed number inside text without digits or dots extracts back to that number. |
| `Utils.ExtractNumericOfFraction` | utils.py:11-12 | With digits after a dot, integer mode gives the digits before it, truncating. |
| `Utils.ExampleThousands` | utils.py:11-12 | "1,299" gives 1299. |
| `Utils.ExampleTruncate` | utils.py:12 | "4.5" gives 4 in integer mode and 45/10 in float mode. |
| `Utils.ReadsDecimal` | utils.py:12 | A sanitised `w.f` reads as `w` in integer mode and as the exact decimal `wf / 10^len(f)` in float mode; either side of the dot may be empty. |
| `Utils.ExampleLeadingDot` | utils.py:12 | ".5" gives 0. |
| `Utils.ExampleTrailingDot` | utils.py:12 | "5." gives 5. |
| `Utils.ExampleNone` | utils.py:12-14 | "", "N/A" and "." give `None`. |
| `Utils.ExampleTwoDots` | utils.py:12-14 | "1.2.3" gives `None`. |
| `PyText.Strip` | scraper.py:54 | `str.strip()`: the result has no whitespace at either end. Whitespace is Python's `str.isspace` set. |
| `PyText.StripSplit` | scraper.py:54 | Every string is its stripped core with whitespace before and after. |
| `PyText.StripOf` | scraper.py:54 | Whitespace around a core that has no whitespace at its ends is exactly what `strip()` removes. |
| `PyText.StripEmptyIff` | scraper.py:53 | `strip()` gives `""` exactly for all-whitespace input. |
| `PyText.Join` | scraper.py:120 | `sep.join([])` is `""`, and a non-empty list's join starts with its first element. `SplitJoin` gives the pieces back. |
| `PyText.SplitJoin` | scraper.py:120 | Splitting a one-character-separator join gives back the pieces, if none contains the separator. |
| `PyText.JoinSplit` | scraper.py:120 | Joining the pieces of a split restores the string. |
| `PyText.RemoveAll` | scraper.py:77 | `replace(pat, "")` never lengthens the string. It changes nothing when the pattern is empty or longer than the string. |
| `PyText.RemoveAllAbsent` | scraper.py:77 | `replace(pat, "")` leaves a string without the pattern unchanged. |
| `PyText.RemoveAllLeading` | scraper.py:101 | A pattern at the front is removed, and the scan goes on after it. |
| `PyText.DecimalString` | scraper.py:133 | `str(n)` for a natural is a non-empty string of ASCII digits. |
| `PyText.DecimalStringRoundTrip` | scraper.py:133 | Reading `str(n)` back as digits gives `n`: `int(str(n)) == n`. |
| `PyText.DigitsValueAppend` | utils.py:12 | The value of a concatenation of digit strings is the first value shifted by the second's length, plus the second value. |

## Findings

| source | as written | input that shows it | evidently intended | confidence | as-written member | corrected member |
|---|---|---|---|---|---|---|
| scraper.py:91 | The formatted-price lookup passes `multiple=True, join=True`. `safe_extract` tests `multiple` first, so a hit is a list. When there is no JSON price, that list becomes `raw_price`, and `extract_numeric` raises a TypeError on it in `re.sub`. Its bare `except` turns that into `None`. | No JSON price; the formatted-price element holds one node, "1299" | The price is read from the joined formatted text (1299). A miss stays falsy, so the fallback is tried. | high; not executed | `Scraper.PriceAsWrittenLosesNumber` | `Scraper.ProductPriceFromFormatted` |

Plain `join=True` would not be the fix. Its `"N/A"` for a miss is truthy and would hide the fallback price. The corrected source, `Scraper.FormattedPrice`, joins the multiple-mode list instead, so a miss gives the falsy `""`. `Scraper.PriceAsWrittenAgreesOtherwise` shows that the two versions differ only in the case above. `ParsePage` keeps the as-written price, and `ParsePageCorrected` carries the corrected one. `Scraper.RecordLosesFormattedPrice` states the difference at record level, and `Scraper.ParsePageCorrectedAgrees` shows the two records are equal outside that case.

## Left out

- The HTTP request (curl_cffi with browser impersonation, scraper.py:62) is not modelled. The response status and the page are inputs to `ParsePage`.
- The header and cookie table (scraper.py:7-34) is static configuration for the transport.
- lxml parsing and XPath evaluation are not modelled. The page is the query oracle `Tree`, and XPath semantics are not modelled. A query that returns something other than a list of strings, for example a number, is not represented.
- The regular-expression scan for the turbo-checkout script and its `json.loads` (scraper.py:72-77) are left out. So are the JSON price block and its decoding (scraper.py:81-89). They are represented by the `Turbo` input and the optional `jsonPrice` string. A `displayPrice` that is a JSON number or other non-string is not represented.
- The text of an exception caught at scraper.py:151-152 is an input (`Unparseable(message)`, `TurboRaised(message)`). Only the lxml parse and the turbo decoding are modelled as raising there, because every other step in the modelled path is total.
- Utils.ExtractNumeric: float rounding is not modelled. Float mode returns the exact decimal `Float(mantissa, scale)` that the source's double approximates, and integer mode truncates that decimal exactly. The source's `int(float(...))` differs for integer parts of 2^53 and above, for fractions that round up to the next integer in a double (such as "4.99999999999999999"), and for digit strings so long that `float` overflows to infinity (there `int` raises and the result is `None`).
- Utils.IsNumeral: only ASCII digits count. Python's `\d` and `float` also accept other Unicode decimal digits.
- Scraper.CategoryHierarchy: the result is a Dafny map, which has no key order. Python's dict keeps insertion order, `l1` to `lN`.
- PyText.RemoveAll: only `str.replace` with an empty replacement is modelled, because that is the only use in the source.
- `clean_text` is imported by scraper.py but never called. It is modelled on its own.
- main.py (the FastAPI routes, template rendering, the health check and the server bootstrap) is not part of this model. It answers HTTP 500 for any record with an `error` key (main.py:39-40).
