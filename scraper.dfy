/**
 * The selection and assembly rules of `parse_amazon_page` in scraper.py.
 * The HTTP fetch, the HTML parser and the two JSON blobs are inputs: the
 * response status, the page as a query oracle, the decoded turbo-checkout
 * header and the decoded JSON display price.
 */
module Scraper {
  import opened Wrappers
  import opened PyText
  import opened Utils
  import opened Extract

  const UrlPrefix := "https://www.amazon.in/dp/"
  const UrlSuffix := "?th=1&psc=1"

  /** `f"https://www.amazon.in/dp/{asin}?th=1&psc=1"`. */
  function ProductUrl(asin: string): (r: string)
    ensures |r| == |UrlPrefix| + |asin| + |UrlSuffix|
    ensures r[..|UrlPrefix|] == UrlPrefix && r[|r| - |UrlSuffix|..] == UrlSuffix
    ensures r[|UrlPrefix|..|r| - |UrlSuffix|] == asin
  {
    UrlPrefix + asin + UrlSuffix
  }

  /** The identifier inside a product URL: the text between the fixed
      prefix and the fixed suffix. */
  function AsinOf(url: string): (r: Option<string>)
    ensures r.Some? ==> ProductUrl(r.value) == url
    ensures r.None? ==> forall asin :: ProductUrl(asin) != url
  {
    var n := |url| - |UrlSuffix|;
    if |url| >= |UrlPrefix| + |UrlSuffix| && url[..|UrlPrefix|] == UrlPrefix && url[n..] == UrlSuffix then
      assert url == url[..|UrlPrefix|] + url[|UrlPrefix|..n] + url[n..];
      Some(url[|UrlPrefix|..n])
    else
      assert forall asin :: ProductUrl(asin)[..|UrlPrefix|] == UrlPrefix;
      assert forall asin :: ProductUrl(asin)[|ProductUrl(asin)| - |UrlSuffix|..] == UrlSuffix;
      None
  }

  /** Stripping the prefix and suffix from a constructed URL recovers the
      identifier, so distinct identifiers give distinct URLs. */
  lemma UrlRoundTrip(asin: string)
    ensures AsinOf(ProductUrl(asin)) == Some(asin)
  {
    var url := ProductUrl(asin);
    assert url[..|UrlPrefix|] == UrlPrefix;
    assert url[|url| - |UrlSuffix|..] == UrlSuffix;
    assert url[|UrlPrefix|..|url| - |UrlSuffix|] == asin;
  }

  const FetchErrorMessage := "Failed to fetch page (invalid ASIN or blocked)"

  /** The currency literal of the record: the rupee sign U+20B9. */
  const Currency := "\U{20B9}"

  // The queries the page is asked, as written in the source.
  const TitleQuery := "//h1/span[@id=\"productTitle\"]/text()"
  const FormattedPriceQuery := "//span[@class=\"a-price a-text-price a-size-medium apexPriceToPay\"]//span[@class=\"a-offscreen\"]/text()"
  const FallbackPriceQuery := "//span[@aria-hidden=\"true\"]//span[@class=\"a-price-whole\"]/text()"
  const MrpQueries := [
    "(//span[contains(text(),\"M.R.P.\")])[1]/text()",
    "//span[@class=\"aok-relative\"]//span[@class=\"a-size-small aok-offscreen\"]/text()"]
  const DiscountQuery := "//span[contains(@class,\"savingsPercentage\")]/text()"
  const RatingQuery := "//a/span[@class=\"a-size-base a-color-base\"]/text()"
  const ReviewsQuery := "//a/span[@id=\"acrCustomerReviewText\"]/text()"
  const DynamicImageQuery := "//img[@class=\"a-dynamic-image\"]/@src"
  const WrapperImageQuery := "//div[@id=\"imgTagWrapperId\"]/img/@src"
  const ThumbnailQuery := "//span[@class=\"a-button-text\"]/img/@src"
  const BrandQueries := [
    "//p/span[@class=\"a-size-medium a-text-bold\"]/text()",
    "//tr[@id=\"bylineInfo\"]/td/span/text()"]
  const StockQuery := "//span[@class=\"a-size-medium a-color-success\"][contains(text(),\"In stock\")]/text()"
  const CategoryQuery := "//a[@class=\"a-link-normal a-color-tertiary\"]/text()"

  const BuyNowLabel := "Buy now:"
  const MrpLabel := "M.R.P.:"

  /** Single mode always returns a string. */
  function TextOf(tree: Tree, xpaths: Queries): string {
    SafeExtract(tree, xpaths, false, false).text
  }

  /** Multiple mode always returns a list. */
  function ListOf(tree: Tree, xpaths: Queries): seq<string> {
    SafeExtract(tree, xpaths, true, false).items
  }

  /** Python truthiness of a string or a list. */
  predicate Truthy(e: Extracted) {
    match e
    case Text(s) => s != ""
    case List(xs) => |xs| > 0
  }

  /** Value `i` is the first truthy one of `xs`. */
  predicate FirstTruthyAt(xs: seq<Extracted>, i: int) {
    0 <= i < |xs| && Truthy(xs[i]) && forall j :: 0 <= j < i ==> !Truthy(xs[j])
  }

  /** `xs[0] or xs[1] or ... or last`. */
  function FirstTruthy(xs: seq<Extracted>, last: Extracted): (r: Extracted)
    ensures forall i | FirstTruthyAt(xs, i) :: r == xs[i]
    ensures (forall j :: 0 <= j < |xs| ==> !Truthy(xs[j])) ==> r == last
    decreases |xs|
  {
    if |xs| == 0 then last
    else if Truthy(xs[0]) then xs[0]
    else
      assert forall i | FirstTruthyAt(xs, i) :: i >= 1 && FirstTruthyAt(xs[1..], i - 1);
      FirstTruthy(xs[1..], last)
  }

  /** The decoded turbo-checkout block: absent (or without the header key),
      a header string, or a decoding step that raised. */
  datatype Turbo = NoTurbo | TurboHeader(header: string) | TurboRaised(message: string)

  /** A fetched page: parsed into a query oracle plus the two decoded JSON
      values, or a parse that raised. */
  datatype Page =
    | Page(tree: Tree, turbo: Turbo, jsonPrice: Option<string>)
    | Unparseable(message: string)

  datatype Response = Response(status: int, page: Page)

  /** The header text with every "Buy now:" removed, then stripped. */
  function TurboName(turbo: Turbo): (r: string)
    requires !turbo.TurboRaised?
    ensures NoEdgeSpace(r)
  {
    match turbo
    case NoTurbo => ""
    case TurboHeader(h) => Strip(RemoveAll(h, BuyNowLabel))
  }

  /** `turbo_product_name or product_title or "N/A"`. */
  function ProductName(turboName: string, title: string): (r: string)
    ensures r != ""
    ensures r == turboName || r == title || r == NotAvailable
  {
    var xs := [Text(turboName), Text(title)];
    assert turboName != "" ==> FirstTruthyAt(xs, 0);
    assert turboName == "" && title != "" ==> FirstTruthyAt(xs, 1);
    FirstTruthy([Text(turboName), Text(title)], Text(NotAvailable)).text
  }

  /** The JSON price as a Python value: `None` is falsy, like "". */
  function JsonPriceValue(jsonPrice: Option<string>): Extracted {
    Text(if jsonPrice.Some? then jsonPrice.value else "")
  }

  /** `extract_numeric(raw_price)`: a list reaching `re.sub` raises a
      TypeError, which `extract_numeric` turns into `None`. */
  function PriceOf(raw: Extracted): (r: Option<Number>)
    ensures raw.List? ==> r == None
    ensures raw.Text? ==> r == ExtractNumeric(raw.text, false)
    ensures r.Some? ==> r.value.Int?
  {
    match raw
    case Text(s) => ExtractNumeric(s, false)
    case List(_) => None
  }

  /** `json_price or formatted_price or fallback_price or "N/A"`. */
  function RawPrice(jsonPrice: Option<string>, formatted: Extracted, fallback: Extracted): (r: Extracted)
    ensures Truthy(r)
    ensures Truthy(JsonPriceValue(jsonPrice)) ==> r == JsonPriceValue(jsonPrice)
    ensures !Truthy(JsonPriceValue(jsonPrice)) && Truthy(formatted) ==> r == formatted
    ensures !Truthy(JsonPriceValue(jsonPrice)) && !Truthy(formatted) && Truthy(fallback) ==> r == fallback
    ensures !Truthy(JsonPriceValue(jsonPrice)) && !Truthy(formatted) && !Truthy(fallback) ==>
      r == Text(NotAvailable)
  {
    var xs := [JsonPriceValue(jsonPrice), formatted, fallback];
    assert Truthy(xs[0]) ==> FirstTruthyAt(xs, 0);
    assert !Truthy(xs[0]) && Truthy(xs[1]) ==> FirstTruthyAt(xs, 1);
    assert !Truthy(xs[0]) && !Truthy(xs[1]) && Truthy(xs[2]) ==> FirstTruthyAt(xs, 2);
    FirstTruthy([JsonPriceValue(jsonPrice), formatted, fallback], Text(NotAvailable))
  }

  /** The product price as the source computes it: the formatted-price
      lookup passes both `multiple=True` and `join=True`, and multiple
      mode wins, so that source is a list. */
  function ProductPriceAsWritten(tree: Tree, jsonPrice: Option<string>): (r: Option<Number>)
    ensures r.Some? ==> r.value.Int?
  {
    PriceOf(RawPrice(jsonPrice,
      SafeExtract(tree, One(FormattedPriceQuery), true, true),
      SafeExtract(tree, One(FallbackPriceQuery), false, false)))
  }

  /** The formatted-price source as the chain evidently intends it: the
      stripped nodes of the hit, space-joined, and "" (falsy, so the
      fallback is tried) when the lookup misses. Plain join mode would not
      do: its "N/A" for a miss is truthy and would hide the fallback. */
  function FormattedPrice(tree: Tree): (r: Extracted)
    ensures r.Text? && NoEdgeSpace(r.text)
  {
    Text(JoinStripped(ListOf(tree, One(FormattedPriceQuery))))
  }

  /** The product price with the formatted price as a joined string. */
  function ProductPrice(tree: Tree, jsonPrice: Option<string>): (r: Option<Number>)
    ensures r.Some? ==> r.value.Int?
  {
    PriceOf(RawPrice(jsonPrice, FormattedPrice(tree),
      SafeExtract(tree, One(FallbackPriceQuery), false, false)))
  }

  /** A numeric field: the string "N/A" when the lookup found nothing,
      otherwise whatever `extract_numeric` makes of it (possibly `None`). */
  datatype NumericField = Unavailable | Parsed(value: Option<Number>)

  /** `extract_numeric(raw, is_float) if raw != "N/A" else "N/A"`. */
  function NumericOf(raw: string, isFloat: bool): (r: NumericField)
    ensures r.Unavailable? <==> raw == NotAvailable
    ensures r.Parsed? ==> r.value == ExtractNumeric(raw, isFloat)
    ensures r.Parsed? && r.value.Some? ==> (r.value.value.Float? <==> isFloat)
  {
    if raw != NotAvailable then Parsed(ExtractNumeric(raw, isFloat)) else Unavailable
  }

  /** The MRP: as `NumericOf`, with the "M.R.P.:" label removed first. */
  function MrpOf(raw: string): (r: NumericField)
    ensures r.Unavailable? <==> raw == NotAvailable
    ensures r.Parsed? ==> r.value == ExtractNumeric(RemoveAll(raw, MrpLabel), false)
    ensures r.Parsed? && r.value.Some? ==> r.value.value.Int?
  {
    if raw != NotAvailable then Parsed(ExtractNumeric(RemoveAll(raw, MrpLabel), false)) else Unavailable
  }

  /** The main image. The first lookup's first result is usually a
      placeholder, so its second result wins whenever there is one. */
  function MainImage(imgs1: seq<string>, imgs2: seq<string>): (r: string)
    ensures |imgs1| >= 2 ==> r == imgs1[1]
    ensures |imgs1| < 2 && |imgs2| >= 1 ==> r == imgs2[0]
    ensures |imgs1| == 1 && |imgs2| == 0 ==> r == imgs1[0]
    ensures |imgs1| == 0 && |imgs2| == 0 ==> r == NotAvailable
    ensures r in imgs1 || r in imgs2 || r == NotAvailable
  {
    if |imgs1| > 1 then imgs1[1]
    else if |imgs2| > 0 then imgs2[0]
    else if |imgs1| > 0 then imgs1[0]
    else NotAvailable
  }

  /** Every thumbnail after the first, comma-joined; "" for at most one. */
  function OtherImages(thumbnails: seq<string>): (r: string)
    ensures |thumbnails| <= 1 ==> r == ""
    ensures |thumbnails| == 2 ==> r == thumbnails[1]
  {
    if |thumbnails| > 1 then Join(",", thumbnails[1..]) else ""
  }

  /** `f"l{i+1}"`: the key of the breadcrumb at index `i`, so "l1" for the
      first. */
  function LevelKey(i: nat): (r: string)
    ensures |r| >= 2 && r[0] == 'l'
  {
    "l" + DecimalString(i + 1)
  }

  /** A key reads back as "l" followed by the 1-based position. */
  lemma LevelKeyReads(i: nat)
    ensures |LevelKey(i)| >= 2 && LevelKey(i)[0] == 'l' && AllDigits(LevelKey(i)[1..])
    ensures DigitsValue(LevelKey(i)[1..]) == i + 1
  {
    DecimalStringRoundTrip(i + 1);
    assert LevelKey(i)[1..] == DecimalString(i + 1);
  }

  lemma LevelKeyInjective()
    ensures forall a: nat, b: nat :: LevelKey(a) == LevelKey(b) ==> a == b
  {
    forall a: nat, b: nat | LevelKey(a) == LevelKey(b) ensures a == b {
      LevelKeyReads(a);
      LevelKeyReads(b);
    }
  }

  /** `{f"l{i+1}": cat.strip() for i, cat in enumerate(categories)}`. */
  function CategoryHierarchy(categories: seq<string>): (r: map<string, string>)
    ensures forall k | k in r :: NoEdgeSpace(r[k])
  {
    LevelKeyInjective();
    map i | 0 <= i < |categories| :: LevelKey(i) := Strip(categories[i])
  }

  /** The keys are exactly "l1" .. "lN" for N breadcrumbs, never skipping
      one (so there are none for no breadcrumbs), and there are N of them. */
  lemma CategoryHierarchyKeys(categories: seq<string>)
    ensures CategoryHierarchy(categories).Keys == set i | 0 <= i < |categories| :: LevelKey(i)
    ensures |CategoryHierarchy(categories)| == |categories|
  {
    var m := CategoryHierarchy(categories);
    LevelKeyInjective();
    KeyCount(|categories|);
  }

  /** The N keys "l1" .. "lN" are distinct. */
  lemma {:induction false} KeyCount(n: nat)
    ensures |set i | 0 <= i < n :: LevelKey(i)| == n
  {
    if n > 0 {
      KeyCount(n - 1);
      KeySetStep(n - 1);
      KeyFresh(n - 1);
    }
  }

  lemma KeySetStep(n: nat)
    ensures (set i | 0 <= i < n + 1 :: LevelKey(i)) == (set i | 0 <= i < n :: LevelKey(i)) + {LevelKey(n)}
  {
  }

  /** The key of position `n` is none of the keys before it. */
  lemma KeyFresh(n: nat)
    ensures LevelKey(n) !in set i | 0 <= i < n :: LevelKey(i)
  {
    forall i | 0 <= i < n ensures LevelKey(i) != LevelKey(n) {
      LevelKeyReads(i);
      LevelKeyReads(n);
    }
  }

  /** The key of index `i` holds the `i`-th breadcrumb, stripped. */
  lemma CategoryHierarchyValues(categories: seq<string>, i: nat)
    requires i < |categories|
    ensures LevelKey(i) in CategoryHierarchy(categories)
    ensures CategoryHierarchy(categories)[LevelKey(i)] == Strip(categories[i])
  {
    LevelKeyInjective();
  }

  datatype Record =
    | Product(
        productUrl: string, currency: string, productName: string, brand: string,
        mainImage: string, otherImages: string, productPrice: Option<Number>,
        mrp: NumericField, discountPercent: NumericField, avgRating: NumericField,
        ratingCount: NumericField, availability: string,
        categoryHierarchy: map<string, string>)
    | FetchError(error: string, productUrl: string)
    | ExtractionError(error: string, productName: string, productUrl: string)

  /** The keys of the dictionary the source returns. */
  function Keys(r: Record): set<string> {
    match r
    case Product(_, _, _, _, _, _, _, _, _, _, _, _, _) =>
      {"product_url", "currency", "product_name", "brand", "main_image", "other_images",
       "product_price", "mrp", "discount_percent", "avg_rating", "rating_count",
       "availability", "category_hierarchy"}
    case FetchError(_, _) => {"error", "product_url"}
    case ExtractionError(_, _, _) => {"error", "product_name", "product_url"}
  }

  /** The product record for a page that parsed and whose turbo block
      decoded, given the product price it carries. */
  function Assemble(url: string, tree: Tree, turboName: string, price: Option<Number>): (r: Record)
    ensures r.Product? && r.productUrl == url && r.currency == Currency
    ensures r.productName != "" && r.productPrice == price
  {
    Product(
      url,
      Currency,
      ProductName(turboName, TextOf(tree, One(TitleQuery))),
      TextOf(tree, Many(BrandQueries)),
      MainImage(ListOf(tree, One(DynamicImageQuery)), ListOf(tree, One(WrapperImageQuery))),
      OtherImages(ListOf(tree, One(ThumbnailQuery))),
      price,
      MrpOf(TextOf(tree, Many(MrpQueries))),
      NumericOf(TextOf(tree, One(DiscountQuery)), false),
      NumericOf(TextOf(tree, One(RatingQuery)), true),
      NumericOf(TextOf(tree, One(ReviewsQuery)), false),
      TextOf(tree, One(StockQuery)),
      CategoryHierarchy(ListOf(tree, One(CategoryQuery))))
  }

  /** `parse_amazon_page(asin)` given the response to its one request, with
      the product price as the source computes it. */
  function ParsePage(asin: string, response: Response): (r: Record)
    ensures r.productUrl == ProductUrl(asin)
    ensures r.FetchError? <==> response.status != 200
    ensures r.FetchError? ==> r.error == FetchErrorMessage && Keys(r) == {"error", "product_url"}
    ensures r.ExtractionError? <==>
      response.status == 200 && (response.page.Unparseable? || response.page.turbo.TurboRaised?)
    ensures r.ExtractionError? ==> r.productName == NotAvailable
    ensures r.ExtractionError? ==>
      r.error == (if response.page.Unparseable? then response.page.message else response.page.turbo.message)
    ensures r.Product? ==> r.currency == Currency
    ensures r.Product? ==>
      r.productPrice == ProductPriceAsWritten(response.page.tree, response.page.jsonPrice)
  {
    var url := ProductUrl(asin);
    if response.status != 200 then FetchError(FetchErrorMessage, url)
    else match response.page
      case Unparseable(message) => ExtractionError(message, NotAvailable, url)
      case Page(tree, turbo, jsonPrice) =>
        if turbo.TurboRaised? then ExtractionError(turbo.message, NotAvailable, url)
        else Assemble(url, tree, TurboName(turbo), ProductPriceAsWritten(tree, jsonPrice))
  }

  /** The record with the corrected product price (see `ProductPrice`):
      the same record as `ParsePage` in every other respect. */
  function ParsePageCorrected(asin: string, response: Response): (r: Record)
    ensures r.Product? <==> ParsePage(asin, response).Product?
    ensures !r.Product? ==> r == ParsePage(asin, response)
    ensures r.Product? ==> r.(productPrice := None) == ParsePage(asin, response).(productPrice := None)
    ensures r.Product? ==> r.productPrice == ProductPrice(response.page.tree, response.page.jsonPrice)
  {
    var r := ParsePage(asin, response);
    if r.Product? then r.(productPrice := ProductPrice(response.page.tree, response.page.jsonPrice)) else r
  }

  /** The name is the first non-empty of the turbo header name and the
      page title, else "N/A". */
  lemma ProductNameChain(turboName: string, title: string)
    ensures turboName != "" ==> ProductName(turboName, title) == turboName
    ensures turboName == "" && title != "" ==> ProductName(turboName, title) == title
    ensures turboName == "" && title == "" ==> ProductName(turboName, title) == NotAvailable
  {
    var xs := [Text(turboName), Text(title)];
    if turboName != "" {
      assert FirstTruthyAt(xs, 0);
    } else if title != "" {
      assert FirstTruthyAt(xs, 1);
    }
  }

  /** A turbo header made of the "Buy now:" label and a name that does not
      repeat the label gives the stripped name. */
  lemma TurboNameDropsLabel(name: string)
    requires !Occurs(name, BuyNowLabel)
    ensures TurboName(TurboHeader(BuyNowLabel + name)) == Strip(name)
  {
    RemoveAllLeading(BuyNowLabel, name);
    RemoveAllAbsent(name, BuyNowLabel);
  }

  /** A JSON display price that is a non-empty string is the price source,
      whatever the page shows. */
  lemma ProductPriceFromJson(tree: Tree, price: string)
    requires price != ""
    ensures ProductPrice(tree, Some(price)) == ExtractNumeric(price, false)
    ensures ProductPriceAsWritten(tree, Some(price)) == ExtractNumeric(price, false)
  {
    var jp := JsonPriceValue(Some(price));
    assert FirstTruthyAt([jp, FormattedPrice(tree),
      SafeExtract(tree, One(FallbackPriceQuery), false, false)], 0);
    assert FirstTruthyAt([jp, SafeExtract(tree, One(FormattedPriceQuery), true, true),
      SafeExtract(tree, One(FallbackPriceQuery), false, false)], 0);
  }

  /** Without a JSON price, a formatted price whose nodes are not all blank
      is the source: its stripped nodes, space-joined, are parsed. */
  lemma ProductPriceFromFormatted(tree: Tree, jsonPrice: Option<string>)
    requires jsonPrice.None? || jsonPrice.value == ""
    requires Hits(tree(FormattedPriceQuery))
    requires JoinStripped(tree(FormattedPriceQuery).items) != ""
    ensures ProductPrice(tree, jsonPrice) == ExtractNumeric(JoinStripped(tree(FormattedPriceQuery).items), false)
  {
    assert FirstHitAt(tree, [FormattedPriceQuery], 0);
    assert FirstTruthyAt([JsonPriceValue(jsonPrice), FormattedPrice(tree),
      SafeExtract(tree, One(FallbackPriceQuery), false, false)], 1);
  }

  /** With no price source at all, the chain ends at "N/A" and the price is
      `None`, unlike the other numeric fields, which stay "N/A". */
  lemma ProductPriceNoSource(tree: Tree, jsonPrice: Option<string>)
    requires jsonPrice.None? || jsonPrice.value == ""
    requires !Hits(tree(FormattedPriceQuery)) && !Hits(tree(FallbackPriceQuery))
    ensures ProductPrice(tree, jsonPrice) == None
    ensures ProductPriceAsWritten(tree, jsonPrice) == None
    ensures RawPrice(jsonPrice, FormattedPrice(tree), SafeExtract(tree, One(FallbackPriceQuery), false, false))
      == Text(NotAvailable)
    ensures RawPrice(jsonPrice, SafeExtract(tree, One(FormattedPriceQuery), true, true),
      SafeExtract(tree, One(FallbackPriceQuery), false, false)) == Text(NotAvailable)
  {
    assert NoHit(tree, [FormattedPriceQuery]);
    assert NoHit(tree, [FallbackPriceQuery]);
    assert JoinStripped([]) == "";
    assert RawPrice(jsonPrice, FormattedPrice(tree), Text(NotAvailable)) == Text(NotAvailable) by {
      assert FirstTruthyAt([JsonPriceValue(jsonPrice), FormattedPrice(tree), Text(NotAvailable)], 2);
    }
    ExampleNone();
  }

  /** As written, whenever there is no JSON price and the formatted-price
      lookup hits, the price is `None`: the hit is a list, and
      `extract_numeric` swallows the TypeError it raises. */
  lemma PriceAsWrittenDropsFormatted(tree: Tree, jsonPrice: Option<string>)
    requires jsonPrice.None? || jsonPrice.value == ""
    requires Hits(tree(FormattedPriceQuery))
    ensures ProductPriceAsWritten(tree, jsonPrice) == None
  {
    assert FirstHitAt(tree, [FormattedPriceQuery], 0);
    assert FirstTruthyAt([JsonPriceValue(jsonPrice), SafeExtract(tree, One(FormattedPriceQuery), true, true),
      SafeExtract(tree, One(FallbackPriceQuery), false, false)], 1);
  }

  /** Everywhere else the as-written price and the corrected one agree. */
  lemma PriceAsWrittenAgreesOtherwise(tree: Tree, jsonPrice: Option<string>)
    requires (jsonPrice.Some? && jsonPrice.value != "") || !Hits(tree(FormattedPriceQuery))
    ensures ProductPriceAsWritten(tree, jsonPrice) == ProductPrice(tree, jsonPrice)
  {
    if jsonPrice.Some? && jsonPrice.value != "" {
      ProductPriceFromJson(tree, jsonPrice.value);
    } else {
      assert NoHit(tree, [FormattedPriceQuery]);
      assert SafeExtract(tree, One(FormattedPriceQuery), true, true) == List([]);
      assert JoinStripped([]) == "";
      assert FormattedPrice(tree) == Text("");
    }
  }

  /** A page without a JSON price whose formatted price shows a number
      loses that price as written; corrected, the number is read. */
  lemma PriceAsWrittenLosesNumber(tree: Tree, n: nat)
    requires tree(FormattedPriceQuery) == Nodes([DecimalString(n)])
    ensures ProductPriceAsWritten(tree, None) == None
    ensures ProductPrice(tree, None) == Some(Int(n))
  {
    PriceAsWrittenDropsFormatted(tree, None);
    var d := DecimalString(n);
    assert NoEdgeSpace(d) by {
      assert IsDigit(d[0]) && IsDigit(d[|d| - 1]);
    }
    JoinStrippedSingle(d);
    ProductPriceFromFormatted(tree, None);
    DecimalStringRoundTrip(n);
    assert AllNumeral(d) by {
      forall i | 0 <= i < |d| ensures IsNumeral(d[i]) { assert IsDigit(d[i]); }
    }
    SanitizeKeeps(d);
    ReadsDigits(d, d);
  }

  /** Such a page exists for every number: one whose every query shows
      that number. */
  lemma PriceAsWrittenCounterexample(n: nat) returns (tree: Tree)
    ensures ProductPriceAsWritten(tree, None) == None
    ensures ProductPrice(tree, None) == Some(Int(n))
  {
    tree := q => Nodes([DecimalString(n)]);
    PriceAsWrittenLosesNumber(tree, n);
  }

  /** The "M.R.P.:" label is removed before parsing, so a labelled MRP
      reads as the text after the label. */
  lemma MrpLabelDropped(t: string)
    requires !Occurs(t, MrpLabel)
    ensures MrpOf(MrpLabel + t) == Parsed(ExtractNumeric(t, false))
  {
    assert (MrpLabel + t)[0] == 'M' != NotAvailable[0];
    RemoveAllLeading(MrpLabel, t);
    RemoveAllAbsent(t, MrpLabel);
  }

  /** Without that removal the label's three dots would make every MRP
      unparseable. */
  lemma MrpLabelBreaksParse(t: string, isFloat: bool)
    ensures ExtractNumeric(MrpLabel + t, isFloat) == None
  {
    SanitizeAppend(MrpLabel, t);
    assert Sanitize(MrpLabel) == "...";
    DotCountAppend("...", Sanitize(t));
    ExtractNumericNoneIff(MrpLabel + t, isFloat);
  }

  /** `other_images` is "" exactly when there is at most one thumbnail or
      the only other one is itself empty. */
  lemma OtherImagesEmptyIff(thumbnails: seq<string>)
    ensures OtherImages(thumbnails) == "" <==>
      |thumbnails| <= 1 || (|thumbnails| == 2 && thumbnails[1] == "")
  {
    if |thumbnails| >= 3 {
      var rest := thumbnails[1..];
      assert Join(",", rest) == rest[0] + "," + Join(",", rest[1..]);
    }
  }

  /** Splitting `other_images` on commas gives back every thumbnail after
      the first, in order, when no thumbnail URL contains a comma. */
  lemma OtherImagesRoundTrip(thumbnails: seq<string>)
    requires |thumbnails| >= 2
    requires forall i :: 1 <= i < |thumbnails| ==> ',' !in thumbnails[i]
    ensures Split(OtherImages(thumbnails), ',') == thumbnails[1..]
  {
    var rest := thumbnails[1..];
    assert forall i :: 0 <= i < |rest| ==> rest[i] == thumbnails[i + 1];
    SplitJoin(rest, ',');
  }

  /** The record of a page that parsed with a decoded turbo block. */
  function ProductPage(tree: Tree, turbo: Turbo, jsonPrice: Option<string>): Response {
    Response(200, Page(tree, turbo, jsonPrice))
  }

  /** When their lookups miss, the MRP, discount, rating and review count
      stay the string "N/A" (`extract_numeric` is never called), while the
      product price becomes `None`. */
  lemma MissingNumbers(asin: string, tree: Tree, turbo: Turbo, jsonPrice: Option<string>)
    requires !turbo.TurboRaised?
    requires jsonPrice.None? || jsonPrice.value == ""
    requires !Hits(tree(FormattedPriceQuery)) && !Hits(tree(FallbackPriceQuery))
    requires NoHit(tree, MrpQueries)
    requires !Hits(tree(DiscountQuery)) && !Hits(tree(RatingQuery)) && !Hits(tree(ReviewsQuery))
    ensures var r := ParsePage(asin, ProductPage(tree, turbo, jsonPrice));
      && r.Product?
      && r.productPrice == None
      && r.mrp == Unavailable && r.discountPercent == Unavailable
      && r.avgRating == Unavailable && r.ratingCount == Unavailable
  {
    ProductPriceNoSource(tree, jsonPrice);
    assert TextOf(tree, Many(MrpQueries)) == NotAvailable;
    MissingNumber(tree, DiscountQuery, false);
    MissingNumber(tree, RatingQuery, true);
    MissingNumber(tree, ReviewsQuery, false);
  }

  /** A numeric lookup that misses leaves its field "N/A". */
  lemma MissingNumber(tree: Tree, query: string, isFloat: bool)
    requires !Hits(tree(query))
    ensures NumericOf(TextOf(tree, One(query)), isFloat) == Unavailable
  {
    assert NoHit(tree, [query]);
  }

  /** When their lookups miss, brand, availability and main image are
      "N/A", other images "" and the category map empty. */
  lemma MissingTexts(asin: string, tree: Tree, turbo: Turbo, jsonPrice: Option<string>)
    requires !turbo.TurboRaised?
    requires NoHit(tree, BrandQueries) && !Hits(tree(StockQuery))
    requires !Hits(tree(DynamicImageQuery)) && !Hits(tree(WrapperImageQuery))
    requires !Hits(tree(ThumbnailQuery)) && !Hits(tree(CategoryQuery))
    ensures var r := ParsePage(asin, ProductPage(tree, turbo, jsonPrice));
      && r.Product?
      && r.brand == NotAvailable && r.availability == NotAvailable
      && r.mainImage == NotAvailable && r.otherImages == ""
      && r.categoryHierarchy == map[]
  {
    assert NoHit(tree, [StockQuery]) && NoHit(tree, [DynamicImageQuery]);
    assert NoHit(tree, [WrapperImageQuery]) && NoHit(tree, [ThumbnailQuery]);
    assert NoHit(tree, [CategoryQuery]);
    CategoryHierarchyKeys([]);
  }

  /** A page whose only price is a fallback price-whole element reading
      "1,299" has product price 1299. */
  lemma FallbackPriceExample(asin: string, tree: Tree, turbo: Turbo)
    requires !turbo.TurboRaised?
    requires !Hits(tree(FormattedPriceQuery))
    requires tree(FallbackPriceQuery) == Nodes(["1,299"])
    ensures ParsePage(asin, ProductPage(tree, turbo, None)).productPrice == Some(Int(1299))
  {
    assert NoHit(tree, [FormattedPriceQuery]);
    assert FirstHitAt(tree, [FallbackPriceQuery], 0);
    assert JoinStripped([]) == "";
    assert Strip("1,299") == "1,299" by {
      StripOf([], "1,299", []);
      assert [] + "1,299" + [] == "1,299";
    }
    var fallback := SafeExtract(tree, One(FallbackPriceQuery), false, false);
    assert fallback == Text("1,299");
    var formatted := SafeExtract(tree, One(FormattedPriceQuery), true, true);
    assert formatted == List([]);
    assert FirstTruthyAt([JsonPriceValue(None), formatted, fallback], 2);
    ExampleThousands();
  }

  /** Outside the case of the finding the corrected record is the record
      the source builds. */
  lemma ParsePageCorrectedAgrees(asin: string, response: Response)
    requires response.page.Page? ==>
      (response.page.jsonPrice.Some? && response.page.jsonPrice.value != "")
      || !Hits(response.page.tree(FormattedPriceQuery))
    ensures ParsePageCorrected(asin, response) == ParsePage(asin, response)
  {
    if ParsePage(asin, response).Product? {
      PriceAsWrittenAgreesOtherwise(response.page.tree, response.page.jsonPrice);
    }
  }

  /** The finding at record level: a product page without a JSON price
      whose formatted price shows the number n is recorded with price
      `None`; the corrected record carries n. */
  lemma RecordLosesFormattedPrice(asin: string, tree: Tree, turbo: Turbo, n: nat)
    requires !turbo.TurboRaised?
    requires tree(FormattedPriceQuery) == Nodes([DecimalString(n)])
    ensures ParsePage(asin, ProductPage(tree, turbo, None)).productPrice == None
    ensures ParsePageCorrected(asin, ProductPage(tree, turbo, None)).productPrice == Some(Int(n))
  {
    PriceAsWrittenLosesNumber(tree, n);
  }
}
