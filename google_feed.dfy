/**
 * app/api/google-feed/route.js: a sitemap index of feed pages; for one page, a crawl that
 * re-cleans the catalogue objects in place as it goes, a window of the cleaned products, one
 * feed item per product with its variants as children, and a repair pass over the parsed items.
 */
module GoogleFeed {
  import opened Wrappers
  import opened Seqs
  import opened Text
  import opened Numbers
  import opened Html
  import opened LinkHeader
  import opened Catalog
  import opened FeedXml

  // ---------------------------------------------------------------- cleanProductData

  /** A variant is kept when its price is truthy and its inventory quantity is neither null nor 0. */
  predicate KeepVariant(v: Variant) {
    v.price != "" && v.quantity.Some? && v.quantity.value != 0
  }

  /** A product with an image and status "active": the only ones the step touches. */
  predicate Listed(p: Product) {
    HasImage(p) && IsActive(p)
  }

  /**
   * What one cleaning call does to one product object in place: a listed product gets its
   * description cleaned (when it is truthy) and its variants filtered; any other is untouched.
   */
  function Prepare(p: Product): Product {
    if !Listed(p) then p
    else p.(bodyHtml := if p.bodyHtml != "" then CleanHtml(p.bodyHtml) else p.bodyHtml,
            variants := Filter(p.variants, KeepVariant))
  }

  /** A prepared product that the step returns: listed, with variants left. */
  predicate Survives(q: Product) {
    Listed(q) && q.variants != []
  }

  /** A product as the upstream sent it that cleaning would return. */
  predicate Eligible(p: Product) {
    Listed(p) && exists v :: v in p.variants && KeepVariant(v)
  }

  /** The array after a call, its objects updated in place, and the survivors the call returns. */
  datatype Cleaned = Cleaned(objects: seq<Product>, survivors: seq<Product>)

  /** `cleanProductData(products)`. */
  function CleanProductData(all: seq<Product>): Cleaned {
    var objects := Map(all, Prepare);
    Cleaned(objects, Filter(objects, Survives))
  }

  /**
   * Preparing changes only the description and the variants; a listed product stays listed,
   * gets a tidy description, and keeps exactly its kept variants.
   */
  lemma PrepareLaws(p: Product)
    ensures Prepare(p).(bodyHtml := p.bodyHtml, variants := p.variants) == p
    ensures Listed(Prepare(p)) == Listed(p)
    ensures !Listed(p) ==> Prepare(p) == p
    ensures Listed(p) ==> Tidy(Prepare(p).bodyHtml)
    ensures Listed(p) ==> forall v :: v in Prepare(p).variants <==> v in p.variants && KeepVariant(v)
  {
    if Listed(p) {
      var q := Prepare(p);
      forall v | v in q.variants
        ensures v in p.variants && KeepVariant(v)
      {
        var i :| 0 <= i < |q.variants| && q.variants[i] == v;
      }
      forall v | v in p.variants && KeepVariant(v)
        ensures v in q.variants
      {
        var i :| 0 <= i < |p.variants| && p.variants[i] == v;
      }
    }
  }

  /** The survivors are exactly the eligible products, prepared, in their original order. */
  lemma CleanSurvivors(all: seq<Product>)
    ensures var c := CleanProductData(all);
      |c.objects| == |all| && |c.survivors| <= |all|
      && (forall q :: q in c.survivors ==>
            Listed(q) && Tidy(q.bodyHtml) && q.variants != [] && forall v :: v in q.variants ==> KeepVariant(v))
      && (forall p :: p in all && Eligible(p) ==> Prepare(p) in c.survivors)
      && (forall q :: q in c.survivors ==> exists p :: p in all && Eligible(p) && q == Prepare(p))
  {
    var c := CleanProductData(all);
    forall q | q in c.survivors
      ensures Listed(q) && Tidy(q.bodyHtml) && q.variants != [] && forall v :: v in q.variants ==> KeepVariant(v)
      ensures exists p :: p in all && Eligible(p) && q == Prepare(p)
    {
      var i :| 0 <= i < |c.objects| && c.objects[i] == q;
      PrepareLaws(all[i]);
      PrepareSkeleton(all[i]);
      EligibleSkeleton(all[i]);
      assert all[i] in all;
    }
    forall p | p in all && Eligible(p)
      ensures Prepare(p) in c.survivors
    {
      var i :| 0 <= i < |all| && all[i] == p;
      PrepareSkeleton(p);
      EligibleSkeleton(p);
      assert c.objects[i] == Prepare(p);
    }
  }

  /** Preparing a prepared product again changes its variants no further. */
  lemma PrepareAgain(p: Product)
    ensures Prepare(Prepare(p)).variants == Prepare(p).variants
    ensures Survives(Prepare(Prepare(p))) == Survives(Prepare(p))
  {
    if Listed(p) {
      FilterIdempotent(p.variants, KeepVariant);
    }
  }

  /**
   * The second and third calls on the same objects remove nothing further: the survivors of a
   * second call are the survivors of the first, prepared again, with the same variants.
   */
  lemma CleanAgain(all: seq<Product>)
    ensures var c := CleanProductData(all);
      CleanProductData(c.objects).survivors == Map(c.survivors, Prepare)
      && forall i :: 0 <= i < |c.survivors| ==> Prepare(c.survivors[i]).variants == c.survivors[i].variants
  {
    var c := CleanProductData(all);
    forall x | x in c.objects
      ensures Survives(Prepare(x)) == Survives(x)
    {
      var i :| 0 <= i < |c.objects| && c.objects[i] == x;
      PrepareAgain(all[i]);
    }
    FilterMapCommute(c.objects, Prepare, Survives);
    forall i | 0 <= i < |c.survivors|
      ensures Prepare(c.survivors[i]).variants == c.survivors[i].variants
    {
      var j :| 0 <= j < |c.objects| && c.objects[j] == c.survivors[i];
      PrepareAgain(all[j]);
    }
  }

  /**
   * A product with what cleaning can change normalised away: the description blanked and,
   * for a listed product, the variants filtered. Cleaning a product any number of times keeps
   * its skeleton.
   */
  function Skeleton(p: Product): Product {
    p.(bodyHtml := "", variants := if Listed(p) then Filter(p.variants, KeepVariant) else p.variants)
  }

  /** Preparing keeps the skeleton, and whether the prepared product survives is read off the skeleton. */
  lemma PrepareSkeleton(p: Product)
    ensures Skeleton(Prepare(p)) == Skeleton(p)
    ensures Survives(Prepare(p)) == Survives(Skeleton(p))
  {
    if Listed(p) {
      FilterIdempotent(p.variants, KeepVariant);
    }
  }

  /** Eligibility is survival of the skeleton. */
  lemma EligibleSkeleton(p: Product)
    ensures Eligible(p) == Survives(Skeleton(p))
  {
    if Listed(p) {
      var f := Filter(p.variants, KeepVariant);
      if f != [] {
        assert f[0] in f;
      }
    }
  }

  /**
   * Objects that have been cleaned any number of times, against the products as sent: the
   * survivors of one more call are the eligible products, up to their skeletons.
   */
  lemma SurvivorsSkeleton(objects: seq<Product>, sent: seq<Product>)
    requires Map(objects, Skeleton) == Map(sent, Skeleton)
    ensures Map(CleanProductData(objects).survivors, Skeleton) == Map(Filter(sent, Eligible), Skeleton)
    ensures |CleanProductData(objects).survivors| == |Filter(sent, Eligible)|
  {
    var prepared := Map(objects, Prepare);
    forall i | 0 <= i < |prepared|
      ensures Skeleton(prepared[i]) == Skeleton(sent[i]) && Survives(prepared[i]) == Eligible(sent[i])
    {
      PrepareSkeleton(objects[i]);
      EligibleSkeleton(sent[i]);
      assert Skeleton(objects[i]) == Map(objects, Skeleton)[i] == Map(sent, Skeleton)[i];
    }
    FilterAlike(prepared, sent, Skeleton, Survives, Eligible);
  }

  /** A call keeps the skeletons of all the objects. */
  lemma CleanKeepsSkeletons(all: seq<Product>)
    ensures Map(CleanProductData(all).objects, Skeleton) == Map(all, Skeleton)
  {
    forall x | x in all
      ensures Skeleton(Prepare(x)) == Skeleton(x)
    {
      PrepareSkeleton(x);
    }
    MapAbsorb(all, Prepare, Skeleton);
  }

  // ---------------------------------------------------------------- fetchProducts

  /** Where the crawl ends: the product objects it holds and the number of requests it made. */
  datatype Walked = Walked(objects: seq<Product>, requests: nat)

  /**
   * The rest of the crawl from page `i`, holding the objects `all`: append the page; stop when
   * there is no next link; otherwise clean the objects in place and stop once `need` survive.
   * None when it requests past the end of the upstream.
   */
  function Walk(pages: seq<Page>, need: int, i: nat, all: seq<Product>): (r: Option<Walked>)
    ensures r.Some? ==> i < r.value.requests <= |pages|
    decreases |pages| - i
  {
    if i >= |pages| then None
    else
      var more := all + pages[i].products;
      if NextUrl(pages[i]).None? then Some(Walked(more, i + 1))
      else
        var c := CleanProductData(more);
        if |c.survivors| >= need then Some(Walked(c.objects, i + 1))
        else Walk(pages, need, i + 1, c.objects)
  }

  /** How many eligible products pages 0 to `j` hold together. */
  function EligibleThrough(pages: seq<Page>, j: nat): nat
    requires j < |pages|
  {
    |Filter(Collected(pages[..j + 1]), Eligible)|
  }

  /**
   * The index of the page after which the crawl from page `i` stops: the first with no next
   * link, or whose pages through it hold `need` eligible products. None when there is none.
   */
  function WalkStop(pages: seq<Page>, need: int, i: nat): (k: Option<nat>)
    ensures k.Some? ==> i <= k.value < |pages|
    ensures k.Some? ==> NextUrl(pages[k.value]).None? || EligibleThrough(pages, k.value) >= need
    decreases |pages| - i
  {
    if i >= |pages| then None
    else if NextUrl(pages[i]).None? || EligibleThrough(pages, i) >= need then Some(i)
    else WalkStop(pages, need, i + 1)
  }

  /** The crawl stops at the first such page: every page before it links on and is short of `need`. */
  lemma {:induction false} WalkStopFirst(pages: seq<Page>, need: int, i: nat)
    ensures forall j {:trigger EligibleThrough(pages, j)} ::
      i <= j < |pages| && (WalkStop(pages, need, i).None? || j < WalkStop(pages, need, i).value) ==>
        NextUrl(pages[j]).Some? && EligibleThrough(pages, j) < need
    decreases |pages| - i
  {
    if i < |pages| {
      if NextUrl(pages[i]).Some? && EligibleThrough(pages, i) < need {
        WalkStopFirst(pages, need, i + 1);
        var k := WalkStop(pages, need, i);
        assert k == WalkStop(pages, need, i + 1);
        forall j | i <= j < |pages| && (k.None? || j < k.value)
          ensures NextUrl(pages[j]).Some? && EligibleThrough(pages, j) < need
        {
          if j > i {
            assert EligibleThrough(pages, j) < need;
          }
        }
      } else {
        assert WalkStop(pages, need, i) == Some(i);
      }
    }
  }

  /**
   * From page `i`, holding objects that look like the products of the pages before it, the
   * crawl ends where `WalkStop` says, holding objects that look like the products through there.
   */
  lemma {:induction false} WalkFrom(pages: seq<Page>, need: int, i: nat, all: seq<Product>)
    requires i <= |pages| && Map(all, Skeleton) == Map(Collected(pages[..i]), Skeleton)
    ensures Walk(pages, need, i, all).None? <==> WalkStop(pages, need, i).None?
    ensures Walk(pages, need, i, all).Some? ==>
      var k := WalkStop(pages, need, i).value;
      Walk(pages, need, i, all).value.requests == k + 1
      && Map(Walk(pages, need, i, all).value.objects, Skeleton) == Map(Collected(pages[..k + 1]), Skeleton)
    decreases |pages| - i
  {
    if i < |pages| {
      var more := all + pages[i].products;
      SkeletonNext(pages, i, all);
      if NextUrl(pages[i]).Some? {
        var c := CleanProductData(more);
        CleanStep(pages, i, more);
        if |c.survivors| < need {
          WalkFrom(pages, need, i + 1, c.objects);
        }
      }
    }
  }

  /** Appending page `i` to objects that look like the pages before it: they look like the pages through it. */
  lemma SkeletonNext(pages: seq<Page>, i: nat, all: seq<Product>)
    requires i < |pages| && Map(all, Skeleton) == Map(Collected(pages[..i]), Skeleton)
    ensures Map(all + pages[i].products, Skeleton) == Map(Collected(pages[..i + 1]), Skeleton)
  {
    CollectedNext(pages, i);
    MapAppend(all, pages[i].products, Skeleton);
    MapAppend(Collected(pages[..i]), pages[i].products, Skeleton);
  }

  /** Cleaning objects that look like the pages through `i`: as many survive as those pages hold eligible products, and the objects still look like those pages. */
  lemma CleanStep(pages: seq<Page>, i: nat, objects: seq<Product>)
    requires i < |pages| && Map(objects, Skeleton) == Map(Collected(pages[..i + 1]), Skeleton)
    ensures |CleanProductData(objects).survivors| == EligibleThrough(pages, i)
    ensures Map(CleanProductData(objects).objects, Skeleton) == Map(Collected(pages[..i + 1]), Skeleton)
  {
    SurvivorsSkeleton(objects, Collected(pages[..i + 1]));
    CleanKeepsSkeletons(objects);
  }

  /** The number of requests the crawl makes (the last one fails when it runs out of pages). */
  function WalkRequests(pages: seq<Page>, need: int): (n: nat)
    ensures 1 <= n <= |pages| + 1
  {
    match Walk(pages, need, 0, [])
    case None => |pages| + 1
    case Some(w) => w.requests
  }

  /** Where the window of page `page` starts: `page - 1` windows of `limit` in. */
  function WindowStart(page: nat, limit: nat): nat
    requires page >= 1
  {
    (page - 1) * limit
  }

  /** What `fetchProducts(page, limit)` returns: the page window of the final clean; [] on failure. */
  function Fetched(pages: seq<Page>, page: nat, limit: nat): seq<Product>
    requires page >= 1
  {
    match Walk(pages, page * limit, 0, [])
    case None => []
    case Some(w) =>
      var start := WindowStart(page, limit);
      Slice(CleanProductData(w.objects).survivors, start, start + limit)
  }

  /**
   * The request loop of `fetchProducts`, which looks for `need` products: it requests 50
   * products at a time, following next links, and after each page with a next link cleans the
   * accumulated objects and stops once `need` survive. It ends holding the objects the crawl
   * ends with, or None when a request fails (the exception `fetchProducts` catches); `trace`
   * lists the URLs requested.
   */
  method CrawlPages(pages: seq<Page>, need: int) returns (held: Option<seq<Product>>, trace: seq<string>)
    ensures held.None? <==> Walk(pages, need, 0, []).None?
    ensures held.Some? ==> held.value == Walk(pages, need, 0, []).value.objects
    ensures trace == Requests(ProductsUrl(50), pages, WalkRequests(pages, need))
  {
    var batchSize := 50;
    var url := ProductsUrl(batchSize);
    ghost var start := url;
    var allProducts: seq<Product> := [];
    var i := 0;
    trace := [];
    ghost var outcome := Walk(pages, need, 0, []);
    while true
      invariant i <= |pages| && trace == Requests(start, pages, i) && url == UrlAt(start, pages, i)
      invariant outcome == Walk(pages, need, i, allProducts)
      decreases |pages| - i
    {
      trace := trace + [url];
      if i == |pages| {
        // the request fails
        return None, trace;
      }
      var response := pages[i];
      RequestsNext(start, pages, i);
      allProducts := allProducts + response.products;
      i := i + 1;
      var next: Option<string> := None;
      match response.link {
        case Some(linkHeader) =>
          if linkHeader != "" {
            next := NextLink(linkHeader);
          }
        case None =>
      }
      assert next == NextUrl(response);
      if next.None? {
        assert outcome == Some(Walked(allProducts, i));
        break;
      }
      url := next.value;
      var cleanedProducts := CleanProductData(allProducts);
      allProducts := cleanedProducts.objects;
      if |cleanedProducts.survivors| >= need {
        assert outcome == Some(Walked(allProducts, i));
        break;
      }
    }
    held := Some(allProducts);
  }

  /**
   * `fetchProducts(page, limit)`: crawls until `page * limit` products survive, cleans the
   * objects once more and returns the window for `page`; [] when a request fails. `trace`
   * lists the URLs requested.
   */
  method FetchProducts(pages: seq<Page>, page: nat, limit: nat) returns (products: seq<Product>, trace: seq<string>)
    requires page >= 1 && limit >= 1
    ensures products == Fetched(pages, page, limit)
    ensures trace == Requests(ProductsUrl(50), pages, WalkRequests(pages, page * limit))
  {
    var held;
    held, trace := CrawlPages(pages, page * limit);
    if held.None? {
      products := [];
      FetchedFailed(pages, page, limit);
      return;
    }
    var cleanedProducts := CleanProductData(held.value);
    var startIndex := WindowStart(page, limit);
    var endIndex := startIndex + limit;
    products := Slice(cleanedProducts.survivors, startIndex, endIndex);
    FetchedWindow(pages, page, limit, Walk(pages, page * limit, 0, []).value);
  }

  /** When the crawl runs past the end of the upstream, nothing is returned. */
  lemma FetchedFailed(pages: seq<Page>, page: nat, limit: nat)
    requires page >= 1 && Walk(pages, page * limit, 0, []).None?
    ensures Fetched(pages, page, limit) == []
  {
  }

  /** When the crawl ends holding `w.objects`, the result is the window of one more clean. */
  lemma FetchedWindow(pages: seq<Page>, page: nat, limit: nat, w: Walked)
    requires page >= 1 && Walk(pages, page * limit, 0, []) == Some(w)
    ensures Fetched(pages, page, limit)
      == Slice(CleanProductData(w.objects).survivors, WindowStart(page, limit), WindowStart(page, limit) + limit)
  {
  }

  /** The window holds at most `limit` products. */
  lemma FetchedAtMostLimit(pages: seq<Page>, page: nat, limit: nat)
    requires page >= 1
    ensures |Fetched(pages, page, limit)| <= limit
  {
  }

  /**
   * The result, description aside, is the window for `page` of the eligible products of the
   * pages through the stopping page, in upstream order, each with only its kept variants; the
   * crawl makes one request per page through there, and fails (giving []) when it runs out.
   */
  lemma FetchedShape(pages: seq<Page>, page: nat, limit: nat)
    requires page >= 1
    ensures WalkStop(pages, page * limit, 0).None? ==>
      Fetched(pages, page, limit) == [] && WalkRequests(pages, page * limit) == |pages| + 1
    ensures WalkStop(pages, page * limit, 0).Some? ==>
      var k := WalkStop(pages, page * limit, 0).value;
      var start := WindowStart(page, limit);
      WalkRequests(pages, page * limit) == k + 1
      && Map(Fetched(pages, page, limit), Skeleton)
         == Slice(Map(Filter(Collected(pages[..k + 1]), Eligible), Skeleton), start, start + limit)
  {
    var need := page * limit;
    var none: seq<Page> := pages[..0];
    assert none == [];
    assert Collected(none) == [];
    WalkFrom(pages, need, 0, []);
    match Walk(pages, need, 0, [])
    case None =>
      FetchedFailed(pages, page, limit);
    case Some(w) =>
      var k := WalkStop(pages, need, 0).value;
      var c := CleanProductData(w.objects);
      FetchedWindow(pages, page, limit, w);
      SurvivorsSkeleton(w.objects, Collected(pages[..k + 1]));
      var start := WindowStart(page, limit);
      MapSlice(c.survivors, Skeleton, start, start + limit);
  }

  /**
   * Every product returned is listed, has a tidy description, and has variants left, each with
   * a truthy price and a quantity neither null nor 0.
   */
  lemma FetchedEligible(pages: seq<Page>, page: nat, limit: nat)
    requires page >= 1
    ensures forall q :: q in Fetched(pages, page, limit) ==>
      HasImage(q) && IsActive(q) && Tidy(q.bodyHtml) && q.variants != []
      && forall v :: v in q.variants ==> v.price != "" && v.quantity.Some? && v.quantity.value != 0
  {
    match Walk(pages, page * limit, 0, [])
    case None =>
    case Some(w) =>
      CleanSurvivors(w.objects);
  }

  // ---------------------------------------------------------------- generateXmlFeed

  /** The price read by `parseFloat`, written with two decimals and followed by " BRL". */
  function PriceText(x: Option<Decimal>): string {
    FormatFixed2(x) + " BRL"
  }

  /** The `g:variants` child of one variant. */
  function VariantFields(v: Variant): Fields {
    map[
      GVariantId := IntToString(v.id),
      GVariantTitle := v.title,
      GVariantPrice := PriceText(ParseFloat(v.price)),
      GVariantSku := v.sku,
      GVariantInventoryQuantity := (match v.quantity case Some(q) => IntToString(q) case None => ""),
      GVariantAvailability := Availability(v.quantity)]
  }

  /** The first variant's parsed price: NaN when there is no first variant. */
  function FirstPrice(p: Product): Option<Decimal> {
    if p.variants == [] then None else ParseFloat(p.variants[0].price)
  }

  /** The first variant's quantity: undefined (None) when there is no first variant. */
  function FirstQuantity(p: Product): Option<int> {
    if p.variants == [] then None else p.variants[0].quantity
  }

  /** The text of each element of a product's item, before it is placed under its element name. */
  datatype ItemValues = ItemValues(
    id: string,
    title: string,
    description: string,
    link: string,
    imageLink: string,
    productType: string,
    price: string,
    availability: string)

  /** The element map of an item. */
  function ItemFields(e: ItemValues): Fields {
    map[
      GId := e.id,
      GTitle := e.title,
      GDescription := e.description,
      GLink := e.link,
      GImageLink := e.imageLink,
      GProductType := e.productType,
      GCondition := "new",
      GPrice := e.price,
      GAvailability := e.availability]
  }

  /** Each element reads back the text it was given. */
  lemma ItemFieldsLookup(e: ItemValues)
    ensures var f := ItemFields(e);
      Get(f, GId) == e.id && Get(f, GTitle) == e.title && Get(f, GDescription) == e.description
      && Get(f, GLink) == e.link && Get(f, GImageLink) == e.imageLink
      && Get(f, GProductType) == e.productType && Get(f, GCondition) == "new"
      && Get(f, GPrice) == e.price && Get(f, GAvailability) == e.availability
  {
  }

  /** The element texts for a product. */
  function ItemValuesOf(p: Product): ItemValues {
    ItemValues(
      IntToString(p.id),
      p.title,
      Or(p.bodyHtml, "No Description available"),
      "https://mofficerbrasil.com/products/" + p.handle,
      p.imageSrc,
      p.productType,
      Or(FormatFixed2(FirstPrice(p)), "0.00") + " BRL",
      Availability(FirstQuantity(p)))
  }

  /** The feed item of one product; the `g:variants` children, none when it has no variants. */
  function ProductItem(p: Product): Item {
    Item(ItemFields(ItemValuesOf(p)), Map(p.variants, VariantFields))
  }

  /** `generateXmlFeed`: one item per product, in order. */
  function GenerateXmlFeed(ps: seq<Product>): seq<Item> {
    Map(ps, ProductItem)
  }

  /** `toFixed(2)` never gives the empty string, so the "0.00" price fallback is never taken. */
  lemma Fixed2NonEmpty(x: Option<Decimal>)
    ensures FormatFixed2(x) != ""
  {
    match x
    case None =>
    case Some(d) => assert IsFixed2(FormatCents(Cents(d)));
  }

  /**
   * The item laws: the id, the title, the description with its fallback, the link, the image,
   * and the price and availability of the first variant ("NaN BRL" and "out of stock" without one).
   */
  lemma ProductItemLaws(p: Product)
    ensures var f := ProductItem(p).fields;
      Get(f, GId) == IntToString(p.id)
      && Get(f, GTitle) == p.title
      && Get(f, GDescription) == (if p.bodyHtml != "" then p.bodyHtml else "No Description available")
      && Get(f, GDescription) != ""
      && Get(f, GImageLink) == p.imageSrc
      && Get(f, GLink) == "https://mofficerbrasil.com/products/" + p.handle
      && Get(f, GCondition) == "new"
      && (p.variants != [] ==> Get(f, GPrice) == PriceText(ParseFloat(p.variants[0].price)))
      && (p.variants == [] ==> Get(f, GPrice) == "NaN BRL")
      && (Get(f, GAvailability) == "in stock" <==> p.variants != [] && Positive(p.variants[0].quantity))
  {
    ItemFieldsLookup(ItemValuesOf(p));
    Fixed2NonEmpty(FirstPrice(p));
  }

  /** Each element of a `g:variants` child reads back the text it was given. */
  lemma VariantFieldsLookup(v: Variant)
    ensures var f := VariantFields(v);
      Get(f, GVariantId) == IntToString(v.id)
      && Get(f, GVariantPrice) == PriceText(ParseFloat(v.price))
      && Get(f, GVariantAvailability) == Availability(v.quantity)
      && (v.quantity.Some? ==> Get(f, GVariantInventoryQuantity) == IntToString(v.quantity.value))
  {
  }

  /**
   * One `g:variants` child per variant, in order, each with the variant's price, quantity
   * and availability; no child (the key omitted) for a product without variants.
   */
  lemma VariantChildrenLaws(p: Product)
    ensures var vs := ProductItem(p).variants;
      |vs| == |p.variants|
      && forall j :: 0 <= j < |p.variants| ==>
           Get(vs[j], GVariantId) == IntToString(p.variants[j].id)
           && Get(vs[j], GVariantPrice) == PriceText(ParseFloat(p.variants[j].price))
           && Get(vs[j], GVariantAvailability) == Availability(p.variants[j].quantity)
           && (p.variants[j].quantity.Some? ==>
                 Get(vs[j], GVariantInventoryQuantity) == IntToString(p.variants[j].quantity.value))
  {
    forall j | 0 <= j < |p.variants| {
      VariantFieldsLookup(p.variants[j]);
    }
  }

  // ---------------------------------------------------------------- fixXmlData

  /** The item's `g:image_link` is missing, empty or only white space. */
  predicate MissingImage(it: Item) {
    Get(it.fields, GImageLink) == "" || Trim(Get(it.fields, GImageLink)) == ""
  }

  /** The log line for an item with a missing image link: its title and the first 50 characters of its description. */
  function MissingMessage(it: Item): string {
    "Missing or malformed image link in product: " + Or(Get(it.fields, GTitle), "No title")
    + ". Description: " + Slice(Or(Get(it.fields, GDescription), "No description"), 0, 50)
  }

  /** The line one item pushes onto `missingLinks`, if any. */
  function MissingStep(it: Item): Option<string> {
    if MissingImage(it) then Some(MissingMessage(it)) else None
  }

  /** The lines one item adds to the log: its message when its image link is missing, else none. */
  function Line(it: Item): seq<string> {
    if MissingImage(it) then [MissingMessage(it)] else []
  }

  /** The `missingLinks` list after the pass, in item order. */
  function MissingLinks(items: seq<Item>): seq<string> {
    FilterMap(items, MissingStep)
  }

  /** The log is empty exactly when every item has an image link. */
  lemma MissingLinksEmpty(items: seq<Item>)
    ensures MissingLinks(items) == [] <==> forall it :: it in items ==> !MissingImage(it)
  {
    FilterMapEmpty(items, MissingStep);
  }

  /**
   * The `forEach` callback on one item: when its image link is missing it pushes a line onto
   * `missingLinks` (returned here as `line`), reading the description before it is rewritten;
   * then a present description is cleaned in place.
   */
  method CheckItem(item: Item) returns (updated: Item, line: seq<string>)
    ensures updated == RewriteDescription(item)
    ensures line == Line(item)
  {
    line := [];
    if MissingImage(item) {
      line := [MissingMessage(item)];
    }
    updated := item;
    if Get(item.fields, GDescription) != "" {
      updated := CleanDescription(updated);
    }
    RewriteStep(item, updated);
  }

  /** The `forEach` over the parsed items, in order: every item rewritten, the lines in item order. */
  method CheckItems(parsed: seq<Item>) returns (items: seq<Item>, missingLinks: seq<string>)
    ensures items == Map(parsed, RewriteDescription)
    ensures missingLinks == MissingLinks(parsed)
  {
    MapInPlace(parsed, 0, RewriteDescription);
    items := parsed;
    missingLinks := [];
    var i := 0;
    while i < |items|
      invariant i <= |parsed| && items == Map(parsed[..i], RewriteDescription) + parsed[i..]
      invariant missingLinks == MissingLinks(parsed[..i])
    {
      MapInPlace(parsed, i, RewriteDescription);
      var item, line := CheckItem(items[i]);
      missingLinks := missingLinks + line;
      MissingStepAppend(parsed, i);
      items := items[i := item];
      i := i + 1;
    }
    MapInPlace(parsed, i, RewriteDescription);
    assert parsed[..i] == parsed;
  }

  /** One more item adds its line, if any, to the log of the items before it. */
  lemma MissingStepAppend(parsed: seq<Item>, i: nat)
    requires i < |parsed|
    ensures MissingLinks(parsed[..i + 1]) == MissingLinks(parsed[..i]) + Line(parsed[i])
  {
    assert parsed[..i + 1] == parsed[..i] + [parsed[i]];
    FilterMapAppend(parsed[..i], [parsed[i]], MissingStep);
    FilterMapOne(parsed[i], MissingStep);
  }

  /**
   * `fixXmlData`: reads the built document back and runs the pass. A non-empty log is written
   * with `fs`, which the route never imports: that throws, and the error is rethrown.
   */
  method FixXmlData(built: seq<Item>) returns (r: Result<seq<Item>, string>)
    ensures r.Failure? <==> exists it :: it in ReparseAll(built) && MissingImage(it)
    ensures r.Success? ==> r.value == Map(ReparseAll(built), RewriteDescription)
  {
    var parsed := ParseItems(built);
    NormalizeParse(built);
    var items, missingLinks := CheckItems(Normalize(parsed));
    MissingLinksEmpty(ReparseAll(built));
    if |missingLinks| > 0 {
      return Failure("fs is not defined");
    }
    r := Success(items);
  }

  /** A product's item, read back, misses its image link exactly when the image address is blank once trimmed. */
  lemma ItemMissingImage(p: Product)
    ensures MissingImage(Reparse(ProductItem(p))) <==> Trim(p.imageSrc) == ""
  {
    var f := ProductItem(p).fields;
    ItemFieldsLookup(ItemValuesOf(p));
    assert GImageLink in f;
    assert Get(Reparse(ProductItem(p)).fields, GImageLink) == Trim(p.imageSrc);
    TrimIdempotent(p.imageSrc);
  }

  /** On a built feed the pass fails exactly when some product's image address is blank once trimmed. */
  lemma FeedMissingImage(ps: seq<Product>)
    ensures (exists it :: it in ReparseAll(GenerateXmlFeed(ps)) && MissingImage(it))
        <==> exists p :: p in ps && Trim(p.imageSrc) == ""
  {
    var items := ReparseAll(GenerateXmlFeed(ps));
    forall i | 0 <= i < |ps|
      ensures MissingImage(items[i]) == BlankImage(ps[i])
    {
      ItemMissingImage(ps[i]);
    }
    ExistsPointwise(items, ps, MissingImage, BlankImage);
  }

  /** The image address is blank once trimmed. */
  predicate BlankImage(p: Product) {
    Trim(p.imageSrc) == ""
  }

  /**
   * The pass removes no item and changes nothing but descriptions: on a built feed, item `i` is
   * product `i`'s item read back, with its description (or the fallback) trimmed and cleaned.
   */
  lemma RepairRewritesDescriptions(ps: seq<Product>, i: nat)
    requires i < |ps|
    ensures var items := Map(ReparseAll(GenerateXmlFeed(ps)), RewriteDescription);
      var d := Trim(if ps[i].bodyHtml != "" then ps[i].bodyHtml else "No Description available");
      |items| == |ps|
      && items[i].variants == Reparse(ProductItem(ps[i])).variants
      && items[i].fields.Keys == ProductItem(ps[i]).fields.Keys
      && (forall k :: k in items[i].fields && k != GDescription ==> items[i].fields[k] == Trim(ProductItem(ps[i]).fields[k]))
      && Get(items[i].fields, GDescription) == (if d != "" then CleanHtml(d) else d)
  {
    ProductItemLaws(ps[i]);
    var parsed := Reparse(ProductItem(ps[i]));
    assert Get(parsed.fields, GDescription) == Trim(Get(ProductItem(ps[i]).fields, GDescription));
  }

  // ---------------------------------------------------------------- generateIndexFile and GET

  /** The address of feed page `n`. */
  function PageLoc(n: nat): string {
    "https://mofficerbrasil.com.br/api/google-feed?page=" + NatToString(n)
  }

  /** One `loc` per page, in page order; none for a page count below 1. */
  function IndexLocs(totalPages: int): seq<string> {
    if totalPages <= 0 then []
    else seq(totalPages, i requires 0 <= i < totalPages => PageLoc(i + 1))
  }

  /** The `page` parameter through `parseInt` with a null default: NaN (a missing parameter included) and 0 read as no page. */
  function PageOf(param: Option<string>): (page: Option<int>)
    ensures page.Some? ==> page.value != 0
  {
    match param
    case None => None
    case Some(s) =>
      match ParseInt(s)
      case None => None
      case Some(n) => if n == 0 then None else Some(n)
  }

  /** The `limit` parameter through `parseInt`, 50 when that is NaN or 0. */
  function LimitOf(param: Option<string>): (limit: int)
    ensures limit != 0
  {
    match param
    case None => 50
    case Some(s) =>
      match ParseInt(s)
      case None => 50
      case Some(n) => if n == 0 then 50 else n
  }

  /** A `page` parameter "0x2" is read as hexadecimal and asks for page 2, not for the index. */
  lemma PageOfHexPrefix()
    ensures PageOf(Some("0x2")) == Some(2)
  {
    var u := "2";
    assert "0x" + u == "0x2";
    ParseIntHex(u);
    assert u[..0] == [];
    assert HexDigitsValue(u) == 2;
  }

  /** The total divided by `limit`, rounded up, for a non-negative total. */
  function TotalPages(total: nat, limit: int): (pages: int)
    requires limit != 0
    ensures limit > 0 ==> pages >= 0
    ensures limit < 0 ==> pages <= 0
  {
    if limit > 0 then (total + limit - 1) / limit else -(total / -limit)
  }

  /** `TotalPages` is the ceiling: the least whole number of pages of `limit` that covers the total. */
  lemma TotalPagesCeiling(total: nat, limit: int)
    requires limit > 0
    ensures (TotalPages(total, limit) - 1) * limit < total <= TotalPages(total, limit) * limit
  {
    var q := TotalPages(total, limit);
    var r := (total + limit - 1) % limit;
    assert q * limit + r == total + limit - 1;
    assert 0 <= r < limit;
  }

  /** A negative limit gives no pages: the ceiling of a non-positive quotient. */
  lemma TotalPagesNegative(total: nat, limit: int)
    requires limit < 0
    ensures TotalPages(total, limit) * limit <= total < (TotalPages(total, limit) - 1) * limit
  {
    var d := -limit;
    var q := total / d;
    assert q * d + total % d == total;
    assert 0 <= total % d < d;
    assert TotalPages(total, limit) * limit == q * d;
    assert (TotalPages(total, limit) - 1) * limit == q * d + d;
  }

  /** The total the count request reports; 0 when it fails. */
  function CountOf(count: Option<nat>): nat {
    match count
    case None => 0
    case Some(c) => c
  }

  /**
   * The index lists one page per feed page, in order, and every page it lists is accepted by
   * `GET`: its `page` parameter reads back as a page in `1..totalPages`.
   */
  lemma IndexPagesAccepted(totalPages: int)
    ensures |IndexLocs(totalPages)| == if totalPages > 0 then totalPages else 0
    ensures forall i :: 0 <= i < |IndexLocs(totalPages)| ==>
      IndexLocs(totalPages)[i] == PageLoc(i + 1)
      && PageOf(Some(NatToString(i + 1))) == Some(i + 1) && 1 <= i + 1 <= totalPages
  {
    forall n: nat | 1 <= n <= |IndexLocs(totalPages)|
      ensures PageOf(Some(NatToString(n))) == Some(n)
    {
      ParseIntNatToString(n);
    }
  }

  /** The channel header of a feed page. */
  const FeedChannel := Channel("M.Officer", "https://mofficer.com.br", "M.Officer")

  /** The answer for a page in range whose window is not empty. */
  function Served(page: int, products: seq<Product>): Response {
    var items := ReparseAll(GenerateXmlFeed(products));
    if exists it :: it in items && MissingImage(it) then Status(500, "Error generating feed")
    else Download(FeedChannel, Map(items, RewriteDescription), "products_" + IntToString(page) + ".xml")
  }

  /**
   * `GET`: without a page, the sitemap index; a page outside `1..totalPages` is refused with
   * 400; an empty window is 404; otherwise the repaired feed as a download, or 500 when the
   * repair throws. `count` is the count request's answer (None when it fails) and `pages` the
   * upstream.
   */
  method HandleGet(pageParam: Option<string>, limitParam: Option<string>, count: Option<nat>, pages: seq<Page>)
    returns (resp: Response)
    ensures PageOf(pageParam).None? ==>
      resp == SitemapIndex(IndexLocs(TotalPages(CountOf(count), LimitOf(limitParam))))
    ensures PageOf(pageParam).Some? ==>
      var page := PageOf(pageParam).value;
      var totalPages := TotalPages(CountOf(count), LimitOf(limitParam));
      (page < 1 || page > totalPages ==> resp == Status(400, "Invalid page number"))
      && (1 <= page <= totalPages ==>
            LimitOf(limitParam) >= 1
            && var products := Fetched(pages, page, LimitOf(limitParam));
            resp == if products == [] then Status(404, "No products found") else Served(page, products))
  {
    var page := PageOf(pageParam);
    var limit := LimitOf(limitParam);
    var totalProducts := CountOf(count);
    var totalPages := TotalPages(totalProducts, limit);
    if page.None? {
      return SitemapIndex(IndexLocs(totalPages));
    }
    var p := page.value;
    if p < 1 || p > totalPages {
      return Status(400, "Invalid page number");
    }
    var products, _ := FetchProducts(pages, p, limit);
    if |products| == 0 {
      return Status(404, "No products found");
    }
    var xmlFeed := GenerateXmlFeed(products);
    var fixedData := FixXmlData(xmlFeed);
    if fixedData.Failure? {
      return Status(500, "Error generating feed");
    }
    resp := Download(FeedChannel, fixedData.value, "products_" + IntToString(p) + ".xml");
  }
}
