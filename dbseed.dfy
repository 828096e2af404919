/**
 * app/api/dbseed/route.js: the initial upload. An uncapped crawl of the catalogue, the listed
 * and in-stock filters, one store record per product, and an upsert per record into the
 * product store keyed by id, stopping at the first write that fails.
 */
module DbSeed {
  import opened Wrappers
  import opened Seqs
  import opened Numbers
  import opened LinkHeader
  import opened Catalog

  // ---------------------------------------------------------------- store records

  /** A coerced SKU: the SKU as a number, or "" when it reads as NaN or 0. */
  datatype SkuValue = SkuNumber(value: Decimal) | SkuBlank

  /** A stored variant: its id, SKU, price and inventory quantity. */
  datatype VariantRecord = VariantRecord(id: int, sku: SkuValue, price: Decimal, quantity: int)

  /** A stored product, with the fields of the store's product schema. */
  datatype Record = Record(
    id: int,
    title: string,
    description: string,
    link: string,
    price: Decimal,
    condition: string,
    availability: string,
    imageLink: string,
    sku: SkuValue,
    productType: string,
    variants: seq<VariantRecord>)

  const StoreLinkPrefix: string := "https://mofficerbrasil.myshopify.com/products/"

  /** The 0 default on a coerced number: NaN and 0 become 0. */
  function NumberOrZero(x: Option<Decimal>): Decimal {
    if Truthy(x) then x.value else Decimal(0, 0)
  }

  /** A SKU string coerced to a number, "" when that is NaN or 0. */
  function SkuOf(s: string): SkuValue {
    var x := NumberOf(s);
    if Truthy(x) then SkuNumber(x.value) else SkuBlank
  }

  /** The coerced quantity with the 0 default: null coerces to 0. */
  function QuantityOrZero(q: Option<int>): int {
    match q
    case None => 0
    case Some(n) => n
  }

  /** The stored copy of one variant, with the numeric coercions and the 0 and "" defaults. */
  function VariantRecordOf(v: Variant): VariantRecord {
    VariantRecord(v.id, SkuOf(v.sku), NumberOrZero(NumberOf(v.price)), QuantityOrZero(v.quantity))
  }

  /** The first variant's coerced price, 0 by default; without a first variant it is NaN, so 0. */
  function FirstPrice(p: Product): Decimal {
    if p.variants == [] then Decimal(0, 0) else NumberOrZero(NumberOf(p.variants[0].price))
  }

  /** The first variant's coerced SKU, "" by default; without a first variant it is NaN, so "". */
  function FirstSku(p: Product): SkuValue {
    if p.variants == [] then SkuBlank else SkuOf(p.variants[0].sku)
  }

  /** The record built for a product. */
  function ToRecord(p: Product): Record {
    Record(
      p.id,
      p.title,
      p.bodyHtml,
      if p.handle != "" then StoreLinkPrefix + p.handle else "",
      FirstPrice(p),
      "new",
      if InStock(p) then "in stock" else "out of stock",
      p.imageSrc,
      FirstSku(p),
      Or(p.productType, ""),
      Map(p.variants, VariantRecordOf))
  }

  /**
   * The record laws: the id, title, description and image as sent; the link is the shop's
   * product URL for a truthy handle and "" otherwise; the condition is "new"; availability is
   * "in stock" exactly when some variant has a positive quantity; and the variants map one to
   * one, in order, keeping their ids.
   */
  lemma RecordLaws(p: Product)
    ensures var r := ToRecord(p);
      r.id == p.id && r.title == p.title && r.description == p.bodyHtml && r.imageLink == p.imageSrc
      && (p.handle != "" ==> r.link == StoreLinkPrefix + p.handle)
      && (p.handle == "" ==> r.link == "")
      && r.condition == "new"
      && (r.availability == "in stock" <==> InStock(p))
      && r.productType == p.productType
      && |r.variants| == |p.variants|
      && forall i :: 0 <= i < |p.variants| ==>
           r.variants[i].id == p.variants[i].id
           && r.variants[i].quantity == (if p.variants[i].quantity.Some? then p.variants[i].quantity.value else 0)
           && r.variants[i].price == NumberOrZero(NumberOf(p.variants[i].price))
           && r.variants[i].sku == SkuOf(p.variants[i].sku)
  {
  }

  /** The first variant gives the record its price and SKU; a product without variants gets 0 and "". */
  lemma RecordFirstVariant(p: Product)
    ensures p.variants != [] ==>
      ToRecord(p).price == ToRecord(p).variants[0].price && ToRecord(p).sku == ToRecord(p).variants[0].sku
    ensures p.variants == [] ==> ToRecord(p).price == Decimal(0, 0) && ToRecord(p).sku == SkuBlank
  {
  }

  // ---------------------------------------------------------------- the store

  /**
   * The product collection. `rejects` holds the ids whose write fails (a refused or lost
   * database operation): the environment, fixed for a run.
   */
  class Store {
    var records: map<int, Record>
    const rejects: set<int>

    constructor(initial: map<int, Record>, failing: set<int>)
      ensures records == initial && rejects == failing
    {
      records := initial;
      rejects := failing;
    }

    /**
     * The find-and-update by id with upsert: the record under `id` is created or replaced;
     * a failing write changes nothing.
     */
    method Upsert(id: int, record: Record) returns (ok: bool)
      modifies this
      ensures ok <==> id !in rejects
      ensures records == if ok then old(records)[id := record] else old(records)
    {
      ok := id !in rejects;
      if ok {
        records := records[id := record];
      }
    }
  }

  /** The store contents after upserting the records `rs` in order into `m`, each under its own id. */
  function Upserted(m: map<int, Record>, rs: seq<Record>): map<int, Record>
    decreases |rs|
  {
    if rs == [] then m
    else Upserted(m, rs[..|rs| - 1])[rs[|rs| - 1].id := rs[|rs| - 1]]
  }

  /** Some record has id `id`. */
  predicate HasId(rs: seq<Record>, id: int) {
    exists i :: 0 <= i < |rs| && rs[i].id == id
  }

  /** No record after position `i` has the id of record `i`: it is the one that stays. */
  predicate LastWithId(rs: seq<Record>, i: nat)
    requires i < |rs|
  {
    forall j :: i < j < |rs| ==> rs[j].id != rs[i].id
  }

  /** A record has the id exactly when one before the last or the last one does. */
  lemma HasIdLast(rs: seq<Record>, id: int)
    requires rs != []
    ensures HasId(rs, id) <==> HasId(rs[..|rs| - 1], id) || rs[|rs| - 1].id == id
  {
    var front := rs[..|rs| - 1];
    if HasId(front, id) {
      var i :| 0 <= i < |front| && front[i].id == id;
      assert rs[i].id == id;
    }
    if HasId(rs, id) && rs[|rs| - 1].id != id {
      var i :| 0 <= i < |rs| && rs[i].id == id;
      assert front[i].id == id;
    }
  }

  /** Afterwards the store holds an id exactly when it held it before or a record has it. */
  lemma {:induction false} UpsertedKeys(m: map<int, Record>, rs: seq<Record>, id: int)
    ensures id in Upserted(m, rs) <==> id in m || HasId(rs, id)
    decreases |rs|
  {
    if rs != [] {
      UpsertedKeys(m, rs[..|rs| - 1], id);
      HasIdLast(rs, id);
    }
  }

  /** An id no record has keeps its old record. */
  lemma {:induction false} UpsertedUntouched(m: map<int, Record>, rs: seq<Record>, id: int)
    requires id in m && !HasId(rs, id)
    ensures id in Upserted(m, rs) && Upserted(m, rs)[id] == m[id]
    decreases |rs|
  {
    if rs != [] {
      HasIdLast(rs, id);
      UpsertedUntouched(m, rs[..|rs| - 1], id);
    }
  }

  /** A record is stored under its id unless a later record has the same id: the last write wins. */
  lemma {:induction false} UpsertedLastWrite(m: map<int, Record>, rs: seq<Record>, i: nat)
    requires i < |rs| && LastWithId(rs, i)
    ensures rs[i].id in Upserted(m, rs) && Upserted(m, rs)[rs[i].id] == rs[i]
    decreases |rs|
  {
    var n := |rs| - 1;
    if i < n {
      var front := rs[..n];
      assert front[i] == rs[i];
      assert LastWithId(front, i) by {
        forall j | i < j < |front|
          ensures front[j].id != front[i].id
        {
          assert front[j] == rs[j];
        }
      }
      UpsertedLastWrite(m, front, i);
      assert rs[n].id != rs[i].id;
    }
  }

  /** With distinct ids every record is stored. */
  lemma UpsertedDistinct(m: map<int, Record>, rs: seq<Record>)
    requires forall i, j :: 0 <= i < j < |rs| ==> rs[i].id != rs[j].id
    ensures forall i :: 0 <= i < |rs| ==> rs[i].id in Upserted(m, rs) && Upserted(m, rs)[rs[i].id] == rs[i]
  {
    forall i | 0 <= i < |rs|
      ensures rs[i].id in Upserted(m, rs) && Upserted(m, rs)[rs[i].id] == rs[i]
    {
      UpsertedLastWrite(m, rs, i);
    }
  }

  /** One more write stores one more record under its id. */
  lemma UpsertedNext(m: map<int, Record>, rs: seq<Record>, j: nat)
    requires j < |rs|
    ensures Upserted(m, rs[..j + 1]) == Upserted(m, rs[..j])[rs[j].id := rs[j]]
  {
    assert rs[..j + 1][..j] == rs[..j];
  }

  /** The records the seed writes, in order: one per product, stored under the product's id. */
  function Writes(ps: seq<Product>): (rs: seq<Record>)
    ensures |rs| == |ps|
    ensures forall i :: 0 <= i < |ps| ==> rs[i].id == ps[i].id
  {
    Map(ps, ToRecord)
  }

  /** The records of the first `k` products are the first `k` records. */
  lemma WritesPrefix(ps: seq<Product>, k: nat)
    requires k <= |ps|
    ensures Writes(ps[..k]) == Writes(ps)[..k]
  {
  }

  // A whole run over `ps` keys the store by product id: the three lemmas below.

  /** Afterwards the store holds an id exactly when it held it before or a product has it. */
  lemma SeedKeys(m: map<int, Record>, ps: seq<Product>, id: int)
    ensures id in Upserted(m, Writes(ps)) <==> id in m || exists i :: 0 <= i < |ps| && ps[i].id == id
  {
    var rs := Writes(ps);
    UpsertedKeys(m, rs, id);
    if HasId(rs, id) {
      var i :| 0 <= i < |rs| && rs[i].id == id;
      assert ps[i].id == id;
    }
    if exists i :: 0 <= i < |ps| && ps[i].id == id {
      var i :| 0 <= i < |ps| && ps[i].id == id;
      assert rs[i].id == id;
    }
  }

  /** An id no product has keeps its record. */
  lemma SeedUntouched(m: map<int, Record>, ps: seq<Product>, id: int)
    requires id in m && forall i :: 0 <= i < |ps| ==> ps[i].id != id
    ensures id in Upserted(m, Writes(ps)) && Upserted(m, Writes(ps))[id] == m[id]
  {
    UpsertedUntouched(m, Writes(ps), id);
  }

  /** A product's id holds the product's freshly built record unless a later product has the same id. */
  lemma SeedLastWrite(m: map<int, Record>, ps: seq<Product>, i: nat)
    requires i < |ps| && forall j :: i < j < |ps| ==> ps[j].id != ps[i].id
    ensures ps[i].id in Upserted(m, Writes(ps)) && Upserted(m, Writes(ps))[ps[i].id] == ToRecord(ps[i])
  {
    var rs := Writes(ps);
    assert LastWithId(rs, i);
    UpsertedLastWrite(m, rs, i);
  }

  /** The position of the first product whose write fails, or |ps| when none does. */
  function FirstRejected(ps: seq<Product>, rejects: set<int>): (k: nat)
    ensures k <= |ps|
    ensures k < |ps| ==> ps[k].id in rejects
    ensures forall j :: 0 <= j < k ==> ps[j].id !in rejects
  {
    if ps == [] then 0
    else if ps[0].id in rejects then 0
    else
      var k := 1 + FirstRejected(ps[1..], rejects);
      assert forall j :: 1 <= j < k ==> ps[j] == ps[1..][j - 1];
      k
  }

  // ---------------------------------------------------------------- fetchProducts

  /** The products the route saves: the listed, then in-stock products of the crawl; None when a request fails. */
  function Saved(pages: seq<Page>): Option<seq<Product>> {
    match CrawlAll(pages)
    case None => None
    case Some(all) => Some(Filter(Filter(all, Listed), InStock))
  }

  /** The product has an image and its status is "active". */
  predicate Listed(p: Product) {
    HasImage(p) && IsActive(p)
  }

  /**
   * Every saved product has an image, is active and has a variant in stock, and is one of
   * the upstream's products as sent; so every saved record says "in stock".
   */
  lemma SavedEligible(pages: seq<Page>)
    ensures Saved(pages).Some? ==> forall p :: p in Saved(pages).value ==>
      HasImage(p) && IsActive(p) && InStock(p) && p in Collected(pages) && ToRecord(p).availability == "in stock"
  {
    CrawlAllPrefix(pages);
    if Saved(pages).Some? {
      forall p | p in Saved(pages).value
        ensures HasImage(p) && IsActive(p) && InStock(p) && p in Collected(pages)
          && ToRecord(p).availability == "in stock"
      {
        RecordLaws(p);
      }
    }
  }

  /** There is no cap: when only the last page lacks a next link, every eligible product of the upstream is saved, in order. */
  lemma SavedWhole(pages: seq<Page>)
    ensures pages != [] && NextUrl(pages[|pages| - 1]).None?
            && (forall j :: 0 <= j < |pages| - 1 ==> NextUrl(pages[j]).Some?)
            ==> Saved(pages) == Some(Filter(Filter(Collected(pages), Listed), InStock))
  {
    CrawlAllWhole(pages);
  }

  const CompleteMessage: string := "Initial upload complete"
  const FailureMessage: string := "Error during initial upload"

  /** What the route answers. */
  datatype Reply =
    | Complete(message: string, count: nat)      // 200 `{ message, count }`
    | WriteError(id: int)                        // 200 `{ error }`: the failed write of product `id`
    | ServerError(status: nat, message: string)  // `{ message }` with the given status

  /**
   * The crawl of `fetchProducts(limit = 250)`: requests 250 products at a time, following
   * next links while `hasNextPage` holds; None when a request fails, which the outer handler
   * catches. `trace` lists the URLs requested.
   */
  method Crawl(pages: seq<Page>) returns (crawled: Option<seq<Product>>, trace: seq<string>)
    ensures crawled == CrawlAll(pages)
    ensures trace == Requests(ProductsUrl(250), pages, AllRequests(pages))
  {
    var allProducts: seq<Product> := [];
    var limit := 250;
    var url := ProductsUrl(limit);
    ghost var start := url;
    var hasNextPage := true;
    var i := 0;
    trace := [];
    while hasNextPage
      invariant i <= |pages|
      invariant trace == Requests(start, pages, i)
      invariant allProducts == Collected(pages[..i])
      invariant hasNextPage ==> url == UrlAt(start, pages, i)
      invariant hasNextPage ==> LastPage(pages, 0) == LastPage(pages, i)
      invariant !hasNextPage ==> i >= 1 && LastPage(pages, 0) == Some(i - 1)
      decreases |pages| - i
    {
      trace := trace + [url];
      if i == |pages| {
        return None, trace;
      }
      var response := pages[i];
      CollectedNext(pages, i);
      RequestsNext(start, pages, i);
      allProducts := allProducts + response.products;
      var next: Option<string> := None;
      match response.link {
        case Some(linkHeader) =>
          if linkHeader != "" {
            next := NextLink(linkHeader);
          }
        case None =>
      }
      assert next == NextUrl(response);
      if next.Some? {
        url := next.value;
      } else {
        hasNextPage := false;
      }
      i := i + 1;
    }
    crawled := Some(allProducts);
  }

  /**
   * The loop over the in-stock products: upserts each product's record in order
   * and answers with the error at the first failed write, the records written before it
   * staying; otherwise answers with the count.
   */
  method SaveAll(store: Store, products: seq<Product>) returns (reply: Reply)
    modifies store
    ensures var k := FirstRejected(products, store.rejects);
      store.records == Upserted(old(store.records), Writes(products[..k]))
      && reply == if k < |products| then WriteError(products[k].id) else Complete(CompleteMessage, |products|)
  {
    ghost var k := FirstRejected(products, store.rejects);
    ghost var before := store.records;
    ghost var writes := Writes(products);
    WritesPrefix(products, k);
    var j := 0;
    while j < |products|
      invariant j <= k
      invariant store.records == Upserted(before, writes[..j])
    {
      var product := products[j];
      var newProduct := ToRecord(product);
      UpsertedNext(before, writes, j);
      var ok := store.Upsert(product.id, newProduct);
      if !ok {
        assert j == k;
        return WriteError(product.id);
      }
      assert j != k;
      j := j + 1;
    }
    reply := Complete(CompleteMessage, |products|);
  }

  /**
   * `fetchProducts(limit = 250)`: the crawl, the listed and in-stock filters, and the upserts;
   * a failed request answers 500 and writes nothing. `trace` lists the URLs requested.
   */
  method FetchProducts(store: Store, pages: seq<Page>) returns (reply: Reply, trace: seq<string>)
    modifies store
    ensures trace == Requests(ProductsUrl(250), pages, AllRequests(pages))
    ensures Saved(pages).None? ==>
      reply == ServerError(500, FailureMessage) && store.records == old(store.records)
    ensures Saved(pages).Some? ==>
      var ps := Saved(pages).value;
      var k := FirstRejected(ps, store.rejects);
      store.records == Upserted(old(store.records), Writes(ps[..k]))
      && reply == if k < |ps| then WriteError(ps[k].id) else Complete(CompleteMessage, |ps|)
  {
    var crawled;
    crawled, trace := Crawl(pages);
    if crawled.None? {
      return ServerError(500, FailureMessage), trace;
    }
    var allProducts := crawled.value;
    var validProducts := Filter(allProducts, Listed);
    var inStockProducts := Filter(validProducts, InStock);
    reply := SaveAll(store, inStockProducts);
  }
}
