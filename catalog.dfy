/**
 * The upstream catalogue as the routes see it: products and variants of the shop's Admin API
 * `products.json` responses, the JavaScript truthiness tests the routes apply to their fields,
 * and the paginated upstream. The upstream is a finite sequence of response pages served in
 * request order; a request past its end is a transport failure.
 */
module Catalog {
  import opened Wrappers
  import opened Numbers
  import opened LinkHeader

  /**
   * A product variant. Text fields that may be null or missing upstream are "" (equally falsy);
   * `quantity` is None when `inventory_quantity` is null; `category` and `availability` are
   * None until a route sets them.
   */
  datatype Variant = Variant(
    id: int,
    title: string,
    price: string,
    sku: string,
    quantity: Option<int>,
    category: Option<string>,
    availability: Option<string>)

  /** A product. `imageSrc` is `image.src`, "" when the product has no image. */
  datatype Product = Product(
    id: int,
    title: string,
    bodyHtml: string,
    status: string,
    handle: string,
    productType: string,
    imageSrc: string,
    brand: string,
    condition: string,
    variants: seq<Variant>)

  /** One response: the products of the page and the `link` header, None when absent. */
  datatype Page = Page(products: seq<Product>, link: Option<string>)

  /** The product has an image with a non-empty source. */
  predicate HasImage(p: Product) {
    p.imageSrc != ""
  }

  predicate IsActive(p: Product) {
    p.status == "active"
  }

  /** The quantity is above zero; a null quantity compares as 0, so it is not. */
  predicate Positive(q: Option<int>) {
    q.Some? && q.value > 0
  }

  /** A left-to-right scan of the variants for a positive quantity. */
  predicate AnyPositive(vs: seq<Variant>) {
    vs != [] && (Positive(vs[0].quantity) || AnyPositive(vs[1..]))
  }

  /** Some variant of the product has a positive quantity. */
  predicate InStock(p: Product) {
    AnyPositive(p.variants)
  }

  /** The scan finds a positive quantity exactly when some variant has one. */
  lemma {:induction false} AnyPositiveAt(vs: seq<Variant>)
    ensures AnyPositive(vs) <==> exists i :: 0 <= i < |vs| && Positive(vs[i].quantity)
  {
    if vs != [] {
      AnyPositiveAt(vs[1..]);
      if exists i :: 0 <= i < |vs| && Positive(vs[i].quantity) {
        var i :| 0 <= i < |vs| && Positive(vs[i].quantity);
        if i > 0 {
          assert Positive(vs[1..][i - 1].quantity);
        }
      }
      if AnyPositive(vs[1..]) {
        var i :| 0 <= i < |vs[1..]| && Positive(vs[1..][i].quantity);
        assert Positive(vs[i + 1].quantity);
      }
    }
  }

  /** A product is in stock exactly when one of its variants has a positive quantity. */
  lemma InStockAt(p: Product)
    ensures InStock(p) <==> exists i :: 0 <= i < |p.variants| && Positive(p.variants[i].quantity)
  {
    AnyPositiveAt(p.variants);
  }

  /** `"in stock"` exactly when the quantity is positive. */
  function Availability(q: Option<int>): (a: string)
    ensures a == "in stock" <==> Positive(q)
    ensures a == "out of stock" <==> !Positive(q)
  {
    if Positive(q) then "in stock" else "out of stock"
  }

  /** JavaScript's `||` on two strings: the first unless it is empty. */
  function Or(a: string, b: string): (r: string)
    ensures a != "" ==> r == a
    ensures a == "" ==> r == b
  {
    if a != "" then a else b
  }

  /** The first products URL, `?limit=` followed by the page size. */
  const ProductsEndpoint: string := "https://mofficerbrasil.myshopify.com/admin/api/2024-10/products.json?limit="

  function ProductsUrl(limit: nat): string {
    ProductsEndpoint + NatToString(limit)
  }

  /** The next request after a page: a truthy `link` header whose pattern matches. */
  function NextUrl(pg: Page): (u: Option<string>)
    ensures pg.link.None? ==> u.None?
    ensures pg.link.Some? ==> u == NextLink(pg.link.value)
  {
    match pg.link
    case None => None
    case Some(h) => if h != "" then NextLink(h) else None
  }

  /** The products of the pages, concatenated in order. */
  function Collected(pages: seq<Page>): (all: seq<Product>)
  {
    if pages == [] then [] else Collected(pages[..|pages| - 1]) + pages[|pages| - 1].products
  }

  /** How many products pages 0 to `j` hold together. */
  function CountThrough(pages: seq<Page>, j: nat): nat
    requires j < |pages|
  {
    |Collected(pages[..j + 1])|
  }

  /** Collecting one more page appends its products. */
  lemma CollectedNext(pages: seq<Page>, i: nat)
    requires i < |pages|
    ensures Collected(pages[..i + 1]) == Collected(pages[..i]) + pages[i].products
  {
    assert pages[..i + 1][..i] == pages[..i];
  }

  /** Collecting two runs of pages concatenates their products. */
  lemma {:induction false} CollectedAppend(a: seq<Page>, b: seq<Page>)
    ensures Collected(a + b) == Collected(a) + Collected(b)
    decreases |b|
  {
    if b == [] {
      assert a + b == a;
    } else {
      var b' := b[..|b| - 1];
      assert (a + b)[..|a + b| - 1] == a + b';
      CollectedAppend(a, b');
    }
  }

  /**
   * The URL of request number `j` (from 0): the start URL, then the next link of page `j - 1`.
   * ("" stands for a request that is never made.)
   */
  function UrlAt(start: string, pages: seq<Page>, j: nat): string
    requires j <= |pages|
  {
    if j == 0 then start
    else match NextUrl(pages[j - 1])
      case Some(u) => u
      case None => ""
  }

  /**
   * The index of the first page from `i` on that has no next link: where a loop that follows
   * next links until there are none stops. None when every page from `i` has one, so the loop
   * requests past the end of the upstream.
   */
  function LastPage(pages: seq<Page>, i: nat): (k: Option<nat>)
    ensures k.Some? ==> i <= k.value < |pages| && NextUrl(pages[k.value]).None?
    decreases |pages| - i
  {
    if i >= |pages| then None
    else if NextUrl(pages[i]).None? then Some(i)
    else LastPage(pages, i + 1)
  }

  /** Every page from `i` before the one `LastPage` finds has a next link. */
  lemma {:induction false} LastPageFirst(pages: seq<Page>, i: nat)
    ensures forall j :: i <= j < |pages| && (LastPage(pages, i).None? || j < LastPage(pages, i).value) ==>
      NextUrl(pages[j]).Some?
    decreases |pages| - i
  {
    if i < |pages| && NextUrl(pages[i]).Some? {
      LastPageFirst(pages, i + 1);
      assert LastPage(pages, i) == LastPage(pages, i + 1);
    }
  }

  /** The first page without a next link ends the crawl whatever follows it. */
  lemma {:induction false} LastPageOfPrefix(pages: seq<Page>, rest: seq<Page>, i: nat)
    requires i < |pages| && NextUrl(pages[|pages| - 1]).None?
    requires forall j :: i <= j < |pages| - 1 ==> NextUrl(pages[j]).Some?
    ensures LastPage(pages + rest, i) == Some(|pages| - 1)
    decreases |pages| - i
  {
    assert (pages + rest)[i] == pages[i];
    if i < |pages| - 1 {
      LastPageOfPrefix(pages, rest, i + 1);
    }
  }

  /** The URLs of the first `n` requests of a crawl from `start`. */
  function Requests(start: string, pages: seq<Page>, n: nat): (r: seq<string>)
    requires n <= |pages| + 1
    ensures |r| == n
    ensures forall j :: 0 <= j < n ==> r[j] == UrlAt(start, pages, j)
  {
    if n == 0 then [] else Requests(start, pages, n - 1) + [UrlAt(start, pages, n - 1)]
  }

  /**
   * Request `j` asks for the start URL when `j` is 0 and otherwise for the target of the
   * next link of the page before it.
   */
  lemma RequestsAt(start: string, pages: seq<Page>, n: nat)
    requires n <= |pages| + 1
    ensures n > 0 ==> Requests(start, pages, n)[0] == start
    ensures forall j :: 0 < j < n && NextUrl(pages[j - 1]).Some? ==>
      Requests(start, pages, n)[j] == NextUrl(pages[j - 1]).value
  {
  }

  /** One more request appends the URL it asks for; after a page with a next link, that link is the next URL. */
  lemma RequestsNext(start: string, pages: seq<Page>, i: nat)
    requires i < |pages|
    ensures Requests(start, pages, i + 1) == Requests(start, pages, i) + [UrlAt(start, pages, i)]
    ensures NextUrl(pages[i]).Some? ==> UrlAt(start, pages, i + 1) == NextUrl(pages[i]).value
  {
  }

  /** The products collected through page `k` are a prefix of everything the upstream holds. */
  lemma CollectedPrefix(pages: seq<Page>, k: nat)
    requires k < |pages|
    ensures forall p :: p in Collected(pages[..k + 1]) ==> p in Collected(pages)
  {
    CollectedAppend(pages[..k + 1], pages[k + 1..]);
    assert pages[..k + 1] + pages[k + 1..] == pages;
  }

  // ---------------------------------------------------------------- the uncapped crawl

  /**
   * What a loop that follows next links until there are none collects: the products of every
   * page through the first one without a next link. None when every page has one, so the loop
   * requests past the end of the upstream.
   */
  function CrawlAll(pages: seq<Page>): Option<seq<Product>> {
    match LastPage(pages, 0)
    case None => None
    case Some(k) => Some(Collected(pages[..k + 1]))
  }

  /** The number of requests the uncapped crawl makes (the last one fails when it runs out of pages). */
  function AllRequests(pages: seq<Page>): (n: nat)
    ensures 1 <= n <= |pages| + 1
  {
    match LastPage(pages, 0)
    case None => |pages| + 1
    case Some(k) => k + 1
  }

  /**
   * There is no cap: when only the last page lacks a next link, the crawl collects the whole
   * upstream; when every page has one, it fails.
   */
  lemma CrawlAllWhole(pages: seq<Page>)
    ensures pages != [] && NextUrl(pages[|pages| - 1]).None?
            && (forall j :: 0 <= j < |pages| - 1 ==> NextUrl(pages[j]).Some?)
            ==> CrawlAll(pages) == Some(Collected(pages)) && AllRequests(pages) == |pages|
    ensures (forall j :: 0 <= j < |pages| ==> NextUrl(pages[j]).Some?) ==> CrawlAll(pages).None?
  {
    if pages != [] && NextUrl(pages[|pages| - 1]).None?
       && (forall j :: 0 <= j < |pages| - 1 ==> NextUrl(pages[j]).Some?) {
      LastPageOfPrefix(pages, [], 0);
      assert pages + [] == pages;
      assert pages[..|pages|] == pages;
    }
  }

  /**
   * What the crawl collects is the products of a prefix of the pages, in order, ending at a
   * page without a next link, every page before which has one.
   */
  lemma CrawlAllPrefix(pages: seq<Page>)
    ensures CrawlAll(pages).Some? <==> LastPage(pages, 0).Some?
    ensures CrawlAll(pages).Some? ==>
      var k := LastPage(pages, 0).value;
      CrawlAll(pages).value == Collected(pages[..k + 1]) && AllRequests(pages) == k + 1
      && NextUrl(pages[k]).None? && (forall j :: 0 <= j < k ==> NextUrl(pages[j]).Some?)
      && forall p :: p in CrawlAll(pages).value ==> p in Collected(pages)
  {
    LastPageFirst(pages, 0);
    if LastPage(pages, 0).Some? {
      CollectedPrefix(pages, LastPage(pages, 0).value);
    }
  }
}
