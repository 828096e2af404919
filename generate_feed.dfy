/**
 * app/api/generateFeed/route.js: an uncapped crawl of the catalogue keeping the in-stock
 * products, a cleaning step that keeps the listed products and fills in variant defaults, one
 * feed item per product, and the GET handler.
 */
module GenerateFeed {
  import opened Wrappers
  import opened Seqs
  import opened Numbers
  import opened LinkHeader
  import opened Catalog
  import opened FeedXml

  // ---------------------------------------------------------------- fetchProducts

  /** What `fetchProducts` returns: the in-stock products of the crawl, in order; [] when a request fails. */
  function Fetched(pages: seq<Page>): seq<Product> {
    match CrawlAll(pages)
    case None => []
    case Some(all) => Filter(all, InStock)
  }

  /**
   * `fetchProducts()`: requests 50 products at a time, following next links while
   * `hasNextPage` holds, then keeps the products with a variant in stock. `trace` lists the
   * URLs requested.
   */
  method FetchProducts(pages: seq<Page>) returns (products: seq<Product>, trace: seq<string>)
    ensures products == Fetched(pages)
    ensures trace == Requests(ProductsUrl(50), pages, AllRequests(pages))
  {
    var allProducts: seq<Product> := [];
    var batchSize := 50;
    var url := ProductsUrl(batchSize);
    ghost var start := url;
    var hasNextPage := true;
    var i := 0;
    trace := [];
    while hasNextPage
      invariant i <= |pages|
      invariant trace == Requests(start, pages, i)
      invariant allProducts == Collected(pages[..i])
      invariant hasNextPage ==> url == UrlAt(start, pages, i)
      invariant hasNextPage ==> LastPage(pages, 0) == LastPage(pages, i)
      invariant !hasNextPage ==> i >= 1 && LastPage(pages, 0) == Some(i - 1)
      decreases |pages| - i
    {
      trace := trace + [url];
      if i == |pages| {
        // the request fails: the exception is caught and the result is empty
        return [], trace;
      }
      var response := pages[i];
      CollectedNext(pages, i);
      RequestsNext(start, pages, i);
      allProducts := allProducts + response.products;
      var next: Option<string> := None;
      match response.link {
        case Some(linkHeader) =>
          if linkHeader != "" {
            next := NextLink(linkHeader);
          }
        case None =>
      }
      assert next == NextUrl(response);
      if next.Some? {
        url := next.value;
      } else {
        hasNextPage := false;
      }
      i := i + 1;
    }
    products := Filter(allProducts, InStock);
  }

  /**
   * Every product returned has a variant in stock and is one of the upstream's products as
   * it sent it; with no cap, when only the last page lacks a next link every in-stock
   * product of the upstream is returned, in order.
   */
  lemma FetchedInStock(pages: seq<Page>)
    ensures forall p :: p in Fetched(pages) ==> InStock(p) && p in Collected(pages)
    ensures pages != [] && NextUrl(pages[|pages| - 1]).None?
            && (forall j :: 0 <= j < |pages| - 1 ==> NextUrl(pages[j]).Some?)
            ==> Fetched(pages) == Filter(Collected(pages), InStock)
  {
    CrawlAllPrefix(pages);
    CrawlAllWhole(pages);
  }

  // ---------------------------------------------------------------- cleanProductData

  /** The product has an image and its status is "active". */
  predicate Listed(p: Product) {
    HasImage(p) && IsActive(p)
  }

  /** The quantity with the 0 default: null (and 0) become 0. */
  function QuantityOrZero(q: Option<int>): int {
    match q
    case None => 0
    case Some(n) => n
  }

  /** The variant copy with the "0.00" price default and the 0 quantity default; every other field kept. */
  function CleanVariant(v: Variant): Variant {
    v.(price := Or(v.price, "0.00"), quantity := Some(QuantityOrZero(v.quantity)))
  }

  /** The product with its variants replaced by their cleaned copies. */
  function CleanProduct(p: Product): Product {
    p.(variants := Map(p.variants, CleanVariant))
  }

  /** `cleanProductData(products)`: the listed products, in order, their variants cleaned. */
  function CleanProductData(products: seq<Product>): seq<Product> {
    Map(Filter(products, Listed), CleanProduct)
  }

  /**
   * A cleaned variant has a truthy price and a quantity; a truthy price and a present
   * quantity are kept as they are, the other fields are untouched, and it is in stock exactly
   * when the original is.
   */
  lemma CleanVariantLaws(v: Variant)
    ensures var c := CleanVariant(v);
      c.price != "" && c.quantity.Some?
      && c.price == (if v.price != "" then v.price else "0.00")
      && c.quantity.value == (if v.quantity.Some? then v.quantity.value else 0)
      && c.(price := v.price, quantity := v.quantity) == v
      && (Positive(c.quantity) <==> Positive(v.quantity))
  {
  }

  /**
   * A cleaned product differs only in its variants, has as many as before, each the cleaned
   * copy of the one at the same position, and is in stock exactly when the original is.
   */
  lemma CleanProductLaws(p: Product)
    ensures var c := CleanProduct(p);
      c.(variants := p.variants) == p
      && |c.variants| == |p.variants|
      && (forall j :: 0 <= j < |p.variants| ==> c.variants[j] == CleanVariant(p.variants[j]))
      && (InStock(c) <==> InStock(p))
  {
    var c := CleanProduct(p);
    InStockAt(p);
    InStockAt(c);
    if InStock(p) {
      var j :| 0 <= j < |p.variants| && Positive(p.variants[j].quantity);
      CleanVariantLaws(p.variants[j]);
      assert Positive(c.variants[j].quantity);
    }
    if InStock(c) {
      var j :| 0 <= j < |c.variants| && Positive(c.variants[j].quantity);
      CleanVariantLaws(p.variants[j]);
      assert Positive(p.variants[j].quantity);
    }
  }

  /**
   * The cleaning step keeps exactly the listed products, in their order: it distributes over
   * concatenation, and a single product gives its cleaned copy when listed and nothing otherwise.
   */
  lemma CleanProductDataOrder(a: seq<Product>, b: seq<Product>, p: Product)
    ensures CleanProductData(a + b) == CleanProductData(a) + CleanProductData(b)
    ensures CleanProductData([p]) == if Listed(p) then [CleanProduct(p)] else []
  {
    FilterAppend(a, b, Listed);
    MapAppend(Filter(a, Listed), Filter(b, Listed), CleanProduct);
    assert [p][1..] == [];
  }

  /** The cleaned products are listed, and they are the listed products, cleaned. */
  lemma CleanProductDataMembers(products: seq<Product>)
    ensures |CleanProductData(products)| <= |products|
    ensures forall q :: q in CleanProductData(products) ==>
      Listed(q) && exists p :: p in products && Listed(p) && q == CleanProduct(p)
    ensures forall p :: p in products && Listed(p) ==> CleanProduct(p) in CleanProductData(products)
  {
    var kept := Filter(products, Listed);
    var r := CleanProductData(products);
    forall q | q in r
      ensures Listed(q) && exists p :: p in products && Listed(p) && q == CleanProduct(p)
    {
      var i :| 0 <= i < |r| && r[i] == q;
      assert kept[i] in products;
    }
    forall p | p in products && Listed(p)
      ensures CleanProduct(p) in r
    {
      var i :| 0 <= i < |products| && products[i] == p;
      var j :| 0 <= j < |kept| && kept[j] == p;
      assert r[j] == CleanProduct(p);
    }
  }

  // ---------------------------------------------------------------- generateXmlFeed

  const LinkPrefix: string := "https://mofficerbrasil.com/products/"
  const NoDescription: string := "No description available"

  /** The text of each element of a product's item, before it is placed under its element name. */
  datatype ItemValues = ItemValues(
    id: string,
    title: string,
    description: string,
    link: string,
    imageLink: string,
    productType: string,
    price: string,
    availability: string)

  /** The element map of an item. */
  function ItemFields(e: ItemValues): Fields {
    map[
      GId := e.id,
      GTitle := e.title,
      GDescription := e.description,
      GLink := e.link,
      GImageLink := e.imageLink,
      GProductType := e.productType,
      GPrice := e.price,
      GAvailability := e.availability]
  }

  /** Each element reads back the text it was given, and there are no others. */
  lemma ItemFieldsLookup(e: ItemValues)
    ensures var f := ItemFields(e);
      Get(f, GId) == e.id && Get(f, GTitle) == e.title && Get(f, GDescription) == e.description
      && Get(f, GLink) == e.link && Get(f, GImageLink) == e.imageLink
      && Get(f, GProductType) == e.productType
      && Get(f, GPrice) == e.price && Get(f, GAvailability) == e.availability
      && f.Keys == {GId, GTitle, GDescription, GLink, GImageLink, GProductType, GPrice, GAvailability}
  {
  }

  /** The first variant's price read by `parseFloat`: NaN when there is no first variant. */
  function FirstPrice(p: Product): Option<Decimal> {
    if p.variants == [] then None else ParseFloat(p.variants[0].price)
  }

  /** The first variant's quantity: undefined (None) when there is no first variant. */
  function FirstQuantity(p: Product): Option<int> {
    if p.variants == [] then None else p.variants[0].quantity
  }

  /** The element texts for a product. */
  function ItemValuesOf(p: Product): ItemValues {
    ItemValues(
      IntToString(p.id),
      p.title,
      Or(p.bodyHtml, NoDescription),
      LinkPrefix + p.handle,
      Or(p.imageSrc, ""),
      p.productType,
      FormatFixed2(FirstPrice(p)) + " BRL",
      Availability(FirstQuantity(p)))
  }

  /** The feed item of one product. */
  function ProductItem(p: Product): Item {
    Item(ItemFields(ItemValuesOf(p)), [])
  }

  /** `generateXmlFeed(products)`: one item per product, in order. */
  function GenerateXmlFeed(ps: seq<Product>): seq<Item> {
    Map(ps, ProductItem)
  }

  /**
   * The item laws: the product id, the description with its fallback, the link from the
   * handle, and the first variant's price with two decimals and " BRL" and its availability,
   * "in stock" exactly when its quantity is positive ("NaN BRL" and "out of stock" without one).
   */
  lemma ProductItemLaws(p: Product)
    ensures var f := ProductItem(p).fields;
      Get(f, GId) == IntToString(p.id)
      && Get(f, GTitle) == p.title
      && Get(f, GDescription) == (if p.bodyHtml != "" then p.bodyHtml else NoDescription)
      && Get(f, GLink) == LinkPrefix + p.handle
      && Get(f, GImageLink) == p.imageSrc
      && Get(f, GProductType) == p.productType
      && (p.variants != [] ==> Get(f, GPrice) == FormatFixed2(ParseFloat(p.variants[0].price)) + " BRL")
      && (p.variants == [] ==> Get(f, GPrice) == "NaN BRL")
      && (Get(f, GAvailability) == "in stock" <==> p.variants != [] && Positive(p.variants[0].quantity))
      && ProductItem(p).variants == []
  {
    ItemFieldsLookup(ItemValuesOf(p));
  }

  /** One item per product, in order: item `i` carries the id of product `i`. */
  lemma FeedOrder(ps: seq<Product>)
    ensures |GenerateXmlFeed(ps)| == |ps|
    ensures forall i :: 0 <= i < |ps| ==> Get(GenerateXmlFeed(ps)[i].fields, GId) == IntToString(ps[i].id)
  {
    forall i | 0 <= i < |ps|
      ensures Get(GenerateXmlFeed(ps)[i].fields, GId) == IntToString(ps[i].id)
    {
      ItemFieldsLookup(ItemValuesOf(ps[i]));
    }
  }

  // ---------------------------------------------------------------- GET

  const NotFoundMessage: string := "No products found!"

  /** The `<channel>` header of the feed. */
  function FeedChannel(): Channel {
    Channel("M.Officer", "https://mofficerbrasil.com.br", "Your Store Description")
  }

  /** What GET answers for an upstream. */
  function Served(pages: seq<Page>): Response {
    var products := Fetched(pages);
    if products == [] then Status(404, NotFoundMessage)
    else Feed(FeedChannel(), GenerateXmlFeed(CleanProductData(products)))
  }

  /**
   * `GET()`: 404 when the crawl yields no products (a failed request included), otherwise the
   * feed of the cleaned products. `trace` lists the URLs requested.
   */
  method HandleGet(pages: seq<Page>) returns (resp: Response, trace: seq<string>)
    ensures resp == Served(pages)
    ensures resp.Status? <==> Fetched(pages) == []
    ensures resp.Status? ==> resp == Status(404, NotFoundMessage)
    ensures trace == Requests(ProductsUrl(50), pages, AllRequests(pages))
  {
    var products;
    products, trace := FetchProducts(pages);
    if |products| == 0 {
      return Status(404, NotFoundMessage), trace;
    }
    var cleanedProducts := CleanProductData(products);
    var xmlFeed := GenerateXmlFeed(cleanedProducts);
    resp := Feed(FeedChannel(), xmlFeed);
  }

  /**
   * A served feed has one item per product of the crawl that is in stock and listed, in
   * upstream order: item `i` carries the id of the `i`-th such product and the price of its
   * first variant, "0.00" when that price is empty.
   */
  lemma ServedFeed(pages: seq<Page>)
    ensures Served(pages).Feed? ==>
      var items := Served(pages).items;
      var eligible := Filter(Filter(Collected(pages[..LastPage(pages, 0).value + 1]), InStock), Listed);
      |items| == |eligible|
      && forall i :: 0 <= i < |items| ==>
           Get(items[i].fields, GId) == IntToString(eligible[i].id)
           && Get(items[i].fields, GPrice) == FormatFixed2(ParseFloat(Or(eligible[i].variants[0].price, "0.00"))) + " BRL"
  {
    if Served(pages).Feed? {
      var fetched := Fetched(pages);
      var eligible := Filter(fetched, Listed);
      var items := Served(pages).items;
      assert fetched == Filter(Collected(pages[..LastPage(pages, 0).value + 1]), InStock);
      forall i | 0 <= i < |items|
        ensures Get(items[i].fields, GId) == IntToString(eligible[i].id)
        ensures Get(items[i].fields, GPrice) == FormatFixed2(ParseFloat(Or(eligible[i].variants[0].price, "0.00"))) + " BRL"
      {
        var p := eligible[i];
        assert p in fetched;
        assert items[i] == ProductItem(CleanProduct(p));
        CleanedItem(p);
      }
    }
  }

  /** The item of an in-stock product, cleaned: its id, and its first variant's price with the "0.00" default. */
  lemma CleanedItem(p: Product)
    requires InStock(p)
    ensures p.variants != []
    ensures var f := ProductItem(CleanProduct(p)).fields;
      Get(f, GId) == IntToString(p.id)
      && Get(f, GPrice) == FormatFixed2(ParseFloat(Or(p.variants[0].price, "0.00"))) + " BRL"
  {
    InStockAt(p);
    var q := CleanProduct(p);
    CleanProductLaws(p);
    CleanVariantLaws(p.variants[0]);
    ProductItemLaws(q);
  }
}
