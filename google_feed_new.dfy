/**
 * app/api/google-feedNew/route.js: a capped crawl of the catalogue, the strict cleaning step,
 * one feed item per product variant, and the repair pass over the parsed items.
 */
module GoogleFeedNew {
  import opened Wrappers
  import opened Seqs
  import opened Text
  import opened Numbers
  import opened Html
  import opened Catalog
  import opened FeedXml

  // ---------------------------------------------------------------- fetchProducts

  /**
   * The index of the page after which the capped crawl stops: the first page from `i` on after
   * which `limit` products have been collected, or that has no next link. None when the crawl
   * runs past the end of the upstream.
   */
  function CapStop(pages: seq<Page>, limit: nat, i: nat): (k: Option<nat>)
    ensures k.Some? ==> i <= k.value < |pages|
    ensures k.Some? ==> CountThrough(pages, k.value) >= limit || NextUrl(pages[k.value]).None?
    decreases |pages| - i
  {
    if i >= |pages| then None
    else if CountThrough(pages, i) >= limit || NextUrl(pages[i]).None? then Some(i)
    else CapStop(pages, limit, i + 1)
  }

  /** The crawl stops at the first such page: every page before it is short of `limit` and links on. */
  lemma {:induction false} CapStopFirst(pages: seq<Page>, limit: nat, i: nat)
    ensures forall j {:trigger CountThrough(pages, j)} ::
      i <= j < |pages| && (CapStop(pages, limit, i).None? || j < CapStop(pages, limit, i).value) ==>
        CountThrough(pages, j) < limit && NextUrl(pages[j]).Some?
    decreases |pages| - i
  {
    if i < |pages| && CountThrough(pages, i) < limit && NextUrl(pages[i]).Some? {
      CapStopFirst(pages, limit, i + 1);
      var k := CapStop(pages, limit, i);
      assert k == CapStop(pages, limit, i + 1);
      forall j | i <= j < |pages| && (k.None? || j < k.value)
        ensures CountThrough(pages, j) < limit && NextUrl(pages[j]).Some?
      {
        if j > i {
          assert CountThrough(pages, j) < limit;
        }
      }
    }
  }

  /** The first `limit` products, once the total has reached `limit`. */
  function Take(all: seq<Product>, limit: nat): (r: seq<Product>)
    ensures |r| <= |all| && (|r| <= limit || r == all)
    ensures r == all[..|r|]
  {
    if |all| >= limit then all[..limit] else all
  }

  /** The product has an image and its status is "active". */
  predicate Listed(p: Product) {
    HasImage(p) && IsActive(p)
  }

  /** What `fetchProducts` returns for an upstream: [] when a request fails. */
  function Fetched(pages: seq<Page>, limit: nat): seq<Product> {
    match CapStop(pages, limit, 0)
    case None => []
    case Some(k) => Filter(Filter(Take(Collected(pages[..k + 1]), limit), Listed), InStock)
  }

  /** The number of requests the capped crawl makes (the last one fails when it runs out of pages). */
  function CapRequests(pages: seq<Page>, limit: nat): (n: nat)
    ensures 1 <= n <= |pages| + 1
  {
    match CapStop(pages, limit, 0)
    case None => |pages| + 1
    case Some(k) => k + 1
  }

  /** Where a crawl ends: the products it holds and the number of requests it made. */
  datatype Crawled = Crawled(products: seq<Product>, requests: nat)

  /**
   * The rest of the capped crawl from page `i`, with `acc` collected before it: None when it
   * requests past the end of the upstream.
   */
  function Crawl(pages: seq<Page>, limit: nat, i: nat, acc: seq<Product>): (r: Option<Crawled>)
    ensures r.Some? ==> i < r.value.requests <= |pages|
    decreases |pages| - i
  {
    if i >= |pages| then None
    else
      var all := acc + pages[i].products;
      if |all| >= limit then Some(Crawled(all[..limit], i + 1))
      else if NextUrl(pages[i]).None? then Some(Crawled(all, i + 1))
      else Crawl(pages, limit, i + 1, all)
  }

  /** From page `i` with the products of the pages before it, the crawl ends where `CapStop` says. */
  lemma {:induction false} CrawlFrom(pages: seq<Page>, limit: nat, i: nat)
    requires i <= |pages|
    ensures Crawl(pages, limit, i, Collected(pages[..i])) ==
      match CapStop(pages, limit, i)
      case None => None
      case Some(k) => Some(Crawled(Take(Collected(pages[..k + 1]), limit), k + 1))
    decreases |pages| - i
  {
    if i < |pages| {
      CollectedNext(pages, i);
      if CountThrough(pages, i) < limit && NextUrl(pages[i]).Some? {
        CrawlFrom(pages, limit, i + 1);
      }
    }
  }

  /** What `fetchProducts` returns and how many requests it makes, read off the crawl. */
  lemma FetchedByCrawl(pages: seq<Page>, limit: nat)
    ensures Crawl(pages, limit, 0, []).None? ==> Fetched(pages, limit) == [] && CapRequests(pages, limit) == |pages| + 1
    ensures Crawl(pages, limit, 0, []).Some? ==>
      var c := Crawl(pages, limit, 0, []).value;
      Fetched(pages, limit) == Filter(Filter(c.products, Listed), InStock) && CapRequests(pages, limit) == c.requests
  {
    var none: seq<Page> := pages[..0];
    assert none == [];
    assert Collected(none) == [];
    CrawlFrom(pages, limit, 0);
  }

  /**
   * `fetchProducts(limit)`: requests pages in order, starting at `?limit=<limit>` and then
   * following each next link, until `limit` products are collected (then trimmed to exactly
   * `limit`) or a page has no next link; then keeps the listed, in-stock products.
   * `trace` is the list of URLs requested.
   */
  method FetchProducts(pages: seq<Page>, limit: nat) returns (products: seq<Product>, trace: seq<string>)
    ensures products == Fetched(pages, limit)
    ensures trace == Requests(ProductsUrl(limit), pages, CapRequests(pages, limit))
  {
    var start := ProductsUrl(limit);
    var allProducts: seq<Product> := [];
    var url := start;
    var hasNextPage := true;
    var i := 0;
    trace := [];
    ghost var outcome := Crawl(pages, limit, 0, []);
    while hasNextPage
      invariant i <= |pages| && trace == Requests(start, pages, i)
      invariant hasNextPage ==> outcome == Crawl(pages, limit, i, allProducts) && url == UrlAt(start, pages, i)
      invariant !hasNextPage ==> outcome == Some(Crawled(allProducts, i))
      decreases |pages| - i
    {
      trace := trace + [url];
      if i == |pages| {
        // the request fails: the exception is caught and the result is empty
        products := [];
        FetchedByCrawl(pages, limit);
        return;
      }
      var response := pages[i];
      RequestsNext(start, pages, i);
      allProducts := allProducts + response.products;
      if |allProducts| >= limit {
        allProducts := allProducts[..limit];
        i := i + 1;
        break;
      }
      var next: Option<string> := None;
      match response.link {
        case Some(linkHeader) =>
          if linkHeader != "" {
            next := LinkHeader.NextLink(linkHeader);
          }
        case None =>
      }
      assert next == NextUrl(response);
      if next.Some? {
        url := next.value;
      } else {
        hasNextPage := false;
      }
      i := i + 1;
    }
    assert outcome == Some(Crawled(allProducts, i));
    FetchedByCrawl(pages, limit);
    var validProducts := Filter(allProducts, Listed);
    products := Filter(validProducts, InStock);
  }

  /** The capped crawl returns at most `limit` products. */
  lemma FetchedAtMostLimit(pages: seq<Page>, limit: nat)
    ensures |Fetched(pages, limit)| <= limit
  {
    match CapStop(pages, limit, 0)
    case None =>
    case Some(k) =>
      var all := Collected(pages[..k + 1]);
      if |all| < limit {
        assert Take(all, limit) == all;
      }
  }

  /**
   * Every product returned is listed and in stock, and is one of the collected products as
   * the upstream sent it: its variants are not filtered.
   */
  lemma FetchedEligible(pages: seq<Page>, limit: nat)
    ensures forall p :: p in Fetched(pages, limit) ==> HasImage(p) && IsActive(p) && InStock(p) && p in Collected(pages)
  {
    match CapStop(pages, limit, 0)
    case None =>
    case Some(k) =>
      var all := Collected(pages[..k + 1]);
      var taken := Take(all, limit);
      var valid := Filter(taken, Listed);
      CollectedPrefix(pages, k);
      forall p | p in Filter(valid, InStock)
        ensures HasImage(p) && IsActive(p) && InStock(p) && p in Collected(pages)
      {
        assert p in valid;
        assert p in taken;
        assert p in all;
      }
  }

  /** When the first page already holds `limit` products, the crawl makes exactly one request. */
  lemma CapAtFirstPage(pages: seq<Page>, limit: nat)
    requires |pages| >= 1 && |pages[0].products| >= limit
    ensures CapRequests(pages, limit) == 1
  {
    assert Collected(pages[..1]) == Collected([]) + pages[0].products;
  }

  // ---------------------------------------------------------------- cleanProductData

  /** A variant survives when `price` and `sku` are truthy and `inventory_quantity` is not negative. */
  predicate KeepVariant(v: Variant) {
    v.price != "" && v.sku != "" && !(v.quantity.Some? && v.quantity.value < 0)
  }

  /** The fields a surviving variant gets: the price with two decimals and the availability. */
  function CleanVariant(v: Variant): Variant {
    v.(price := FormatFixed2(ParseFloat(v.price)), availability := Some(Availability(v.quantity)))
  }

  /** One variant through the variant step: null (None) when it is excluded. */
  function VariantStep(v: Variant): Option<Variant> {
    if KeepVariant(v) then Some(CleanVariant(v)) else None
  }

  /** The surviving variants, cleaned, in their original order. */
  function CleanVariants(vs: seq<Variant>): seq<Variant> {
    FilterMap(vs, VariantStep)
  }

  /** No variant survives exactly when none passes the test. */
  lemma CleanVariantsEmpty(vs: seq<Variant>)
    ensures CleanVariants(vs) == [] <==> forall w :: w in vs ==> !KeepVariant(w)
  {
    FilterMapEmpty(vs, VariantStep);
  }

  /** Every surviving variant is a kept variant, cleaned; every kept variant survives, cleaned. */
  lemma CleanVariantsMembers(vs: seq<Variant>)
    ensures forall x :: x in CleanVariants(vs) ==> exists w :: w in vs && KeepVariant(w) && x == CleanVariant(w)
    ensures forall w :: w in vs && KeepVariant(w) ==> CleanVariant(w) in CleanVariants(vs)
  {
    forall x | x in CleanVariants(vs)
      ensures exists w :: w in vs && KeepVariant(w) && x == CleanVariant(w)
    {
      var w :| w in vs && VariantStep(w) == Some(x);
    }
    forall w | w in vs && KeepVariant(w)
      ensures CleanVariant(w) in CleanVariants(vs)
    {
      assert VariantStep(w).Some?;
    }
  }

  /** A surviving variant, cleaned: truthy sku, no negative quantity, a two-decimal or "NaN" price. */
  lemma CleanVariantShape(w: Variant)
    requires KeepVariant(w)
    ensures var v := CleanVariant(w);
      v.id == w.id && v.sku == w.sku && v.sku != "" && v.quantity == w.quantity
      && !(v.quantity.Some? && v.quantity.value < 0)
      && (IsFixed2(v.price) || v.price == "NaN")
      && v.availability == Some(Availability(v.quantity))
  {
    match ParseFloat(w.price)
    case None =>
    case Some(d) =>
  }

  /** The product has a title, a description and an image, and its status is "active". */
  predicate Complete(p: Product) {
    p.title != "" && p.bodyHtml != "" && HasImage(p) && IsActive(p)
  }

  /** One product through the cleaning step: None when it is excluded. */
  function CleanProduct(p: Product): (r: Option<Product>)
    ensures r.Some? <==> Complete(p) && exists w :: w in p.variants && KeepVariant(w)
  {
    if !Complete(p) then None
    else
      var vs := CleanVariants(p.variants);
      CleanVariantsEmpty(p.variants);
      if |vs| == 0 then None
      else Some(p.(bodyHtml := CleanHtml(p.bodyHtml), variants := vs,
                   brand := Or(p.brand, "M.Officer"), condition := Or(p.condition, "new")))
  }

  /** `cleanProductData`: the cleaned survivors, in their original order. */
  function CleanProductData(ps: seq<Product>): seq<Product> {
    FilterMap(ps, CleanProduct)
  }

  /** Cleaning a concatenation cleans each part: survivors keep their relative order. */
  lemma CleanProductDataAppend(a: seq<Product>, b: seq<Product>)
    ensures CleanProductData(a + b) == CleanProductData(a) + CleanProductData(b)
  {
    FilterMapAppend(a, b, CleanProduct);
  }

  /**
   * What a surviving product looks like: title, image, active status; a tidy description;
   * at least one variant; the brand and condition defaults; every variant with a truthy sku,
   * a non-negative quantity, a two-decimal (or "NaN") price and its availability.
   */
  lemma CleanProductShape(p: Product)
    requires CleanProduct(p).Some?
    ensures var q := CleanProduct(p).value;
      q.id == p.id && q.title == p.title && q.imageSrc == p.imageSrc && IsActive(q)
      && q.bodyHtml == CleanHtml(p.bodyHtml) && Tidy(q.bodyHtml)
      && q.variants != []
      && (q.brand == if p.brand != "" then p.brand else "M.Officer")
      && (q.condition == if p.condition != "" then p.condition else "new")
    ensures forall v :: v in CleanProduct(p).value.variants ==>
      v.sku != "" && !(v.quantity.Some? && v.quantity.value < 0)
      && (IsFixed2(v.price) || v.price == "NaN")
      && v.availability == Some(Availability(v.quantity))
  {
    var vs := CleanProduct(p).value.variants;
    assert vs == CleanVariants(p.variants);
    CleanVariantsMembers(p.variants);
    forall v | v in vs
      ensures v.sku != "" && !(v.quantity.Some? && v.quantity.value < 0)
      ensures IsFixed2(v.price) || v.price == "NaN"
      ensures v.availability == Some(Availability(v.quantity))
    {
      var w :| w in p.variants && KeepVariant(w) && v == CleanVariant(w);
      CleanVariantShape(w);
    }
  }

  /** A store document read through this route has no `body_html`, so the step drops every one. */
  lemma CleanDropsBodyless(ps: seq<Product>)
    requires forall i :: 0 <= i < |ps| ==> ps[i].bodyHtml == ""
    ensures CleanProductData(ps) == []
  {
    FilterMapEmpty(ps, CleanProduct);
  }


  // ---------------------------------------------------------------- generateXmlFeed

  /** `"<2-decimal> BRL"` from a price string. */
  function PriceText(price: string): string {
    FormatFixed2(ParseFloat(price)) + " BRL"
  }

  /**
   * The title of every item of a product: the title in sentence case, escaped, or the
   * fallback "No Title Available" after the same two steps (`ItemTitleAsWritten`).
   */
  function ItemTitle(p: Product): string {
    if p.title != "" then EscapeXml(ToSentenceCase(p.title)) else "No title available"
  }

  /** The description of every item of a product: `body_html` escaped, or the fallback. */
  function ItemDescription(p: Product): string {
    if p.bodyHtml != "" then EscapeXml(p.bodyHtml) else "No Description Available"
  }

  /** Sentence casing the title fallback. */
  lemma SentenceCaseFallback(t: string)
    requires t == "No Title Available"
    ensures ToSentenceCase(t) == "No title available"
  {
    TitleSplit(t);
    var u := "o title available";
    LowerFallback(t[1..]);
    SentenceCaseCons(t, u);
    TitleJoin(u);
  }

  lemma TitleSplit(t: string)
    requires t == "No Title Available"
    ensures t != [] && t[0] == 'N' && t[1..] == "o Title Available"
  {
  }

  lemma TitleJoin(u: string)
    requires u == "o title available"
    ensures ['N'] + u == "No title available"
  {
  }

  lemma LowerFallback(t: string)
    requires t == "o Title Available"
    ensures LowerAll(t) == "o title available"
  {
    var r := LowerAll(t);
    assert r[2] == 't';
  }

  /** The title fallback, once cased, is free of the characters the escaping rewrites. */
  lemma EscapeTitleFallback(u: string)
    requires u == "No title available"
    ensures EscapeXml(u) == u
  {
    EscapePlain(u);
  }

  /** So is the description fallback. */
  lemma EscapeDescriptionFallback(u: string)
    requires u == "No Description Available"
    ensures EscapeXml(u) == u
  {
    EscapePlain(u);
  }

  /** The title fallback after the two steps. */
  lemma TitleFallback()
    ensures EscapeXml(ToSentenceCase("No Title Available")) == "No title available"
  {
    var t := "No Title Available";
    var u := ToSentenceCase(t);
    SentenceCaseFallback(t);
    EscapeTitleFallback(u);
  }

  /** The title is what the route computes. */
  lemma ItemTitleAsWritten(p: Product)
    ensures ItemTitle(p) == EscapeXml(ToSentenceCase(Or(p.title, "No Title Available")))
  {
    if p.title == "" {
      TitleFallback();
    }
  }

  /** The description is what the route computes. */
  lemma ItemDescriptionAsWritten(p: Product)
    ensures ItemDescription(p) == EscapeXml(Or(p.bodyHtml, "No Description Available"))
  {
    if p.bodyHtml == "" {
      EscapeDescriptionFallback("No Description Available");
    }
  }

  /** The text of each element of one item, before it is placed under its element name. */
  datatype ItemValues = ItemValues(
    id: string,
    title: string,
    description: string,
    link: string,
    price: string,
    availability: string,
    imageLink: string,
    category: string,
    sku: string,
    productType: string)

  /** The item object handed to the builder: every element name with its text. */
  function ItemFields(e: ItemValues): Fields {
    map[
      GId := e.id,
      GTitle := e.title,
      Title := e.title,
      Description := e.description,
      Link := e.link,
      GPrice := e.price,
      GCondition := "new",
      GAvailability := e.availability,
      GImageLink := e.imageLink,
      GGoogleProductCategory := e.category,
      GSku := e.sku,
      GBrand := "M.Officer",
      GProductType := e.productType,
      GIdentifierExists := "FALSE"]
  }

  /** Each element reads back the text it was given; there is no `g:description` element. */
  lemma ItemFieldsLookup(e: ItemValues)
    ensures var f := ItemFields(e);
      GId in f && f[GId] == e.id
      && GTitle in f && f[GTitle] == e.title
      && Title in f && f[Title] == e.title
      && Description in f && f[Description] == e.description
      && GPrice in f && f[GPrice] == e.price
      && GAvailability in f && f[GAvailability] == e.availability
      && GImageLink in f && f[GImageLink] == e.imageLink
      && GGoogleProductCategory in f && f[GGoogleProductCategory] == e.category
      && GProductType in f && f[GProductType] == e.productType
      && GDescription !in f
  {
  }

  /**
   * The element texts for one variant of a product. An undefined `variant.category` is built as
   * an empty element, so the category element is always present.
   */
  function ItemValuesOf(p: Product, v: Variant): ItemValues {
    ItemValues(
      IntToString(p.id) + "-" + IntToString(v.id),
      ItemTitle(p),
      ItemDescription(p),
      "https://www.mofficer.com.br/products/" + p.handle,
      PriceText(v.price),
      Availability(v.quantity),
      p.imageSrc,
      match v.category case Some(c) => c case None => "",
      v.sku,
      Or(p.productType, "Uncategorized"))
  }

  /** The item for one variant of a product. */
  function MakeItem(p: Product, v: Variant): Item {
    Item(ItemFields(ItemValuesOf(p, v)), [])
  }

  /** The items of one product, one per variant in order. */
  function ProductItems(p: Product): (items: seq<Item>)
    ensures |items| == |p.variants|
    ensures forall j :: 0 <= j < |items| ==> items[j] == MakeItem(p, p.variants[j])
  {
    seq(|p.variants|, j requires 0 <= j < |p.variants| => MakeItem(p, p.variants[j]))
  }

  /** One item per variant, product by product and variant by variant. */
  function GenerateXmlFeed(ps: seq<Product>): seq<Item> {
    FlatMap(ps, ProductItems)
  }

  function TotalVariants(ps: seq<Product>): nat {
    if ps == [] then 0 else |ps[0].variants| + TotalVariants(ps[1..])
  }

  /** One item per variant of every product. */
  lemma {:induction false} FeedLength(ps: seq<Product>)
    ensures |GenerateXmlFeed(ps)| == TotalVariants(ps)
  {
    if ps != [] {
      FeedLength(ps[1..]);
    }
  }

  /** The feed of two runs of products is the feed of the first followed by the feed of the second. */
  lemma FeedAppend(a: seq<Product>, b: seq<Product>)
    ensures GenerateXmlFeed(a + b) == GenerateXmlFeed(a) + GenerateXmlFeed(b)
  {
    FlatMapAppend(a, b, ProductItems);
  }

  /** The item of variant `j` of a product sits after the items of the products before it. */
  lemma ItemAt(before: seq<Product>, p: Product, after: seq<Product>, j: nat)
    requires j < |p.variants|
    ensures |GenerateXmlFeed(before)| + j < |GenerateXmlFeed(before + [p] + after)|
    ensures GenerateXmlFeed(before + [p] + after)[|GenerateXmlFeed(before)| + j] == MakeItem(p, p.variants[j])
  {
    FlatMapMiddle(before, p, after, ProductItems, j);
    assert ProductItems(p)[j] == MakeItem(p, p.variants[j]);
  }

  /** Every built item is the item of a variant of one of the products. */
  lemma BuiltFrom(ps: seq<Product>, it: Item)
    requires it in GenerateXmlFeed(ps)
    ensures exists p, v :: p in ps && v in p.variants && it == MakeItem(p, v)
  {
    FlatMapFrom(ps, ProductItems, it);
    var p :| p in ps && it in ProductItems(p);
    var j :| 0 <= j < |ProductItems(p)| && ProductItems(p)[j] == it;
    assert p.variants[j] in p.variants;
  }

  /**
   * The item laws: the composite id, the price string, availability "in stock" exactly for a
   * positive quantity, the title and description as the route computes them (with their
   * fallbacks), the product type fallback, the category, no raw quote or apostrophe in the
   * title, and no `g:description` element.
   */
  lemma ItemLaws(p: Product, v: Variant)
    ensures var f := MakeItem(p, v).fields;
      Get(f, GId) == IntToString(p.id) + "-" + IntToString(v.id)
      && Get(f, GPrice) == FormatFixed2(ParseFloat(v.price)) + " BRL"
      && (Get(f, GAvailability) == "in stock" <==> Positive(v.quantity))
      && Get(f, GTitle) == Get(f, Title) == EscapeXml(ToSentenceCase(Or(p.title, "No Title Available")))
      && (p.title == "" ==> Get(f, GTitle) == "No title available")
      && Get(f, Description) == EscapeXml(Or(p.bodyHtml, "No Description Available"))
      && (p.productType == "" ==> Get(f, GProductType) == "Uncategorized")
      && (v.category.None? ==> Get(f, GGoogleProductCategory) == "")
      && '"' !in Get(f, GTitle) && '\'' !in Get(f, GTitle)
      && GDescription !in f
  {
    ItemFieldsLookup(ItemValuesOf(p, v));
    ItemTitleAsWritten(p);
    ItemDescriptionAsWritten(p);
  }

  /** Two digit strings joined by a dash split back at that dash. */
  lemma DashSplit(x: string, u: string, y: string, w: string)
    requires AllDigits(x) && AllDigits(y) && x + "-" + u == y + "-" + w
    ensures x == y && u == w
  {
    var s := x + "-" + u;
    var t := y + "-" + w;
    assert forall k :: 0 <= k < |x| ==> s[k] == x[k] && s[k] != '-';
    assert forall k :: 0 <= k < |y| ==> t[k] == y[k] && t[k] != '-';
    assert s[|x|] == '-' && t[|y|] == '-';
    assert |x| == |y|;
    assert x == s[..|x|] && y == t[..|y|];
    assert u == s[|x| + 1..] && w == t[|y| + 1..];
  }

  /** Distinct (product id, variant id) pairs of non-negative ids give distinct `g:id` values. */
  lemma CompositeIdInjective(a: int, b: int, c: int, d: int)
    requires a >= 0 && b >= 0 && c >= 0 && d >= 0
    requires IntToString(a) + "-" + IntToString(b) == IntToString(c) + "-" + IntToString(d)
    ensures a == c && b == d
  {
    DashSplit(IntToString(a), IntToString(b), IntToString(c), IntToString(d));
    NatToStringInjective(a, c);
    NatToStringInjective(b, d);
  }

  /** The cleaning step's price survives the feed's second `toFixed(2)` unchanged. */
  lemma CleanedPriceText(v: Variant)
    ensures PriceText(CleanVariant(v).price) == PriceText(v.price)
  {
    Fixed2Idempotent(ParseFloat(v.price));
  }

  // ---------------------------------------------------------------- fixXmlData

  /** The item has an image link that is not blank and a title. */
  predicate ValidItem(it: Item) {
    Get(it.fields, GImageLink) != "" && Trim(Get(it.fields, GImageLink)) != ""
    && Get(it.fields, GTitle) != ""
  }

  /** An item read back is valid exactly when its image link and title are not blank once trimmed. */
  lemma ReparseValid(it: Item)
    ensures ValidItem(Reparse(it)) <==>
      Trim(Get(it.fields, GImageLink)) != "" && Trim(Get(it.fields, GTitle)) != ""
  {
    var f := Reparse(it).fields;
    assert Get(f, GImageLink) == Trim(Get(it.fields, GImageLink));
    assert Get(f, GTitle) == Trim(Get(it.fields, GTitle));
    TrimIdempotent(Get(it.fields, GImageLink));
  }

  /**
   * A built item, read back, survives the filter exactly when its product's image address and
   * its title are not blank once trimmed.
   */
  lemma MakeItemValid(p: Product, v: Variant)
    ensures ValidItem(Reparse(MakeItem(p, v))) <==> Trim(p.imageSrc) != "" && Trim(ItemTitle(p)) != ""
  {
    ItemFieldsLookup(ItemValuesOf(p, v));
    ReparseValid(MakeItem(p, v));
  }

  /** Validity depends only on the image link and the title. */
  lemma ValidSameFields(a: Item, b: Item)
    requires Get(a.fields, GImageLink) == Get(b.fields, GImageLink) && Get(a.fields, GTitle) == Get(b.fields, GTitle)
    ensures ValidItem(a) == ValidItem(b)
  {
  }

  /** Rewriting the description does not change whether an item is valid. */
  lemma RewriteKeepsValid(it: Item)
    ensures ValidItem(RewriteDescription(it)) == ValidItem(it)
  {
    RewriteGet(it, GImageLink);
    RewriteGet(it, GTitle);
    ValidSameFields(RewriteDescription(it), it);
  }

  /** The repair pass on the parsed item list: the valid items, descriptions cleaned. */
  function Repaired(items: seq<Item>): seq<Item> {
    Map(Filter(items, ValidItem), RewriteDescription)
  }

  /**
   * `fixXmlData`: reads the built document back, normalises `channel.item` to a list, keeps
   * the valid items and cleans the descriptions of the survivors.
   */
  method FixXmlData(built: seq<Item>) returns (items: seq<Item>)
    ensures items == Repaired(ReparseAll(built))
  {
    var parsed := ParseItems(built);
    NormalizeParse(built);
    var valid := Filter(Normalize(parsed), ValidItem);
    items := CleanDescriptions(valid);
  }

  /** The `forEach` over the valid items: each description that is present is cleaned in place. */
  method CleanDescriptions(valid: seq<Item>) returns (items: seq<Item>)
    ensures items == Map(valid, RewriteDescription)
  {
    items := valid;
    var i := 0;
    while i < |items|
      invariant i <= |items| == |valid|
      invariant forall j :: 0 <= j < i ==> items[j] == RewriteDescription(valid[j])
      invariant forall j :: i <= j < |items| ==> items[j] == valid[j]
    {
      var item := items[i];
      if Get(item.fields, GDescription) != "" {
        item := CleanDescription(item);
      }
      RewriteStep(valid[i], item);
      items := items[i := item];
      i := i + 1;
    }
    MapPointwise(valid, RewriteDescription, items);
  }

  /**
   * The pass keeps exactly the valid items, in order: none is invalid, none valid is lost, and
   * every survivor is the parsed item with at most its description rewritten.
   */
  lemma RepairedKeepsValid(items: seq<Item>)
    ensures |Repaired(items)| <= |items|
    ensures forall x :: x in Repaired(items) ==> ValidItem(x)
    ensures forall x :: x in items && ValidItem(x) ==> RewriteDescription(x) in Repaired(items)
  {
    var valid := Filter(items, ValidItem);
    var r := Repaired(items);
    forall x | x in r
      ensures ValidItem(x)
    {
      var a :| 0 <= a < |r| && r[a] == x;
      RewriteKeepsValid(valid[a]);
    }
    forall x | x in items && ValidItem(x)
      ensures RewriteDescription(x) in r
    {
      var a :| 0 <= a < |valid| && valid[a] == x;
      assert r[a] == RewriteDescription(x);
    }
  }

  /** Items without a `g:description` element, as this route builds them, pass the filter only. */
  lemma RepairedWithoutDescriptions(items: seq<Item>)
    requires forall i :: 0 <= i < |items| ==> GDescription !in items[i].fields
    ensures Repaired(items) == Filter(items, ValidItem)
  {
    var valid := Filter(items, ValidItem);
    forall i | 0 <= i < |valid|
      ensures RewriteDescription(valid[i]) == valid[i]
    {
      var a :| 0 <= a < |items| && items[a] == valid[i];
      RewriteNoDescription(valid[i]);
    }
    MapFixed(valid, RewriteDescription);
  }

  /** End to end on a cleaned catalogue: the repair pass only filters, it rewrites nothing. */
  lemma FeedRepairOnlyFilters(ps: seq<Product>)
    ensures Repaired(ReparseAll(GenerateXmlFeed(ps))) == Filter(ReparseAll(GenerateXmlFeed(ps)), ValidItem)
  {
    var built := GenerateXmlFeed(ps);
    var items := ReparseAll(built);
    forall i | 0 <= i < |items|
      ensures GDescription !in items[i].fields
    {
      BuiltFrom(ps, built[i]);
      var p, v :| p in ps && v in p.variants && built[i] == MakeItem(p, v);
      ItemFieldsLookup(ItemValuesOf(p, v));
      assert items[i].fields.Keys == built[i].fields.Keys;
    }
    RepairedWithoutDescriptions(items);
  }
}
