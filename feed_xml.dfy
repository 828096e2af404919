/**
 * Feed documents as structured records rather than XML text. An item is the object the routes
 * hand to xml2js's `Builder`: its text-valued elements, and for google-feed the repeated `g:variants` children. Reading a built document back
 * with xml2js's parser, trimming values and without forcing arrays, is modelled by `ParseItems`.
 */
module FeedXml {
  import opened Text
  import opened Html

  /** The element names the routes build, including the "g:" namespace prefix. */
  datatype Element =
    | GId | GTitle | Title | Description | Link | GLink | GPrice | GCondition | GAvailability
    | GImageLink | GGoogleProductCategory | GSku | GBrand | GProductType | GIdentifierExists
    | GDescription | GVariantId | GVariantTitle | GVariantPrice | GVariantSku
    | GVariantInventoryQuantity | GVariantAvailability

  /** The tag of an element. */
  function Name(e: Element): string {
    match e
    case GId => "g:id"
    case GTitle => "g:title"
    case Title => "title"
    case Description => "description"
    case Link => "link"
    case GLink => "g:link"
    case GPrice => "g:price"
    case GCondition => "g:condition"
    case GAvailability => "g:availability"
    case GImageLink => "g:image_link"
    case GGoogleProductCategory => "g:google_product_category"
    case GSku => "g:sku"
    case GBrand => "g:brand"
    case GProductType => "g:product_type"
    case GIdentifierExists => "g:identifier_exists"
    case GDescription => "g:description"
    case GVariantId => "g:variant_id"
    case GVariantTitle => "g:variant_title"
    case GVariantPrice => "g:variant_price"
    case GVariantSku => "g:variant_sku"
    case GVariantInventoryQuantity => "g:variant_inventory_quantity"
    case GVariantAvailability => "g:variant_availability"
  }

  /** Element to text content. */
  type Fields = map<Element, string>

  datatype Item = Item(fields: Fields, variants: seq<Fields>)

  /** The `<channel>` header elements. */
  datatype Channel = Channel(title: string, link: string, description: string)

  /** What a route answers: an RSS feed, a feed sent as a download, a sitemap index, or a JSON status. */
  datatype Response =
    | Feed(channel: Channel, items: seq<Item>)
    | Download(channel: Channel, items: seq<Item>, filename: string)
    | SitemapIndex(locs: seq<string>)
    | Status(code: nat, message: string)

  /** An element's text in a truthiness test: a missing element reads as undefined, as falsy as "". */
  function Get(f: Fields, key: Element): (v: string)
    ensures key in f ==> v == f[key]
    ensures key !in f ==> v == ""
  {
    if key in f then f[key] else ""
  }

  /** Every text value trimmed, as the parser's trim option does when reading. */
  function TrimFields(f: Fields): (r: Fields)
    ensures r.Keys == f.Keys
    ensures forall k :: k in r ==> r[k] == Trim(f[k])
  {
    map k | k in f :: Trim(f[k])
  }

  /** An item as it reads back after being built: its values and its children's values trimmed. */
  function Reparse(it: Item): (r: Item)
    ensures r.fields == TrimFields(it.fields)
    ensures |r.variants| == |it.variants|
    ensures forall i :: 0 <= i < |r.variants| ==> r.variants[i] == TrimFields(it.variants[i])
  {
    Item(TrimFields(it.fields), seq(|it.variants|, i requires 0 <= i < |it.variants| => TrimFields(it.variants[i])))
  }

  function ReparseAll(items: seq<Item>): (r: seq<Item>)
    ensures |r| == |items|
    ensures forall i :: 0 <= i < |r| ==> r[i] == Reparse(items[i])
  {
    seq(|items|, i requires 0 <= i < |items| => Reparse(items[i]))
  }

  /** The `item` field of the parsed channel when arrays are not forced. */
  datatype ItemField = Absent | One(item: Item) | Many(items: seq<Item>)

  /** No `<item>` element reads as absent, a single one as a bare object, several as an array. */
  function ParseItems(items: seq<Item>): (f: ItemField)
    ensures |items| == 0 <==> f.Absent?
    ensures |items| == 1 <==> f.One?
    ensures f.Many? ==> |f.items| >= 2
  {
    var r := ReparseAll(items);
    if |r| == 0 then Absent else if |r| == 1 then One(r[0]) else Many(r)
  }

  /** The parsed `item` field as a list: none, the single item, or all of them. */
  function Normalize(f: ItemField): seq<Item> {
    match f
    case Absent => []
    case One(it) => [it]
    case Many(its) => its
  }

  /** Normalising the parsed `item` gives back every built item, in order, with values trimmed. */
  lemma NormalizeParse(items: seq<Item>)
    ensures Normalize(ParseItems(items)) == ReparseAll(items)
  {
    if |items| == 1 {
      assert ReparseAll(items) == [ReparseAll(items)[0]];
    }
  }

  /** Trimming every value of already trimmed values changes nothing. */
  lemma TrimFieldsIdempotent(f: Fields)
    ensures TrimFields(TrimFields(f)) == TrimFields(f)
  {
    forall k | k in f
      ensures Trim(Trim(f[k])) == Trim(f[k])
    {
      TrimIdempotent(f[k]);
    }
  }

  /** An item read back reads back the same once more. */
  lemma ReparseIdempotent(it: Item)
    ensures Reparse(Reparse(it)) == Reparse(it)
  {
    TrimFieldsIdempotent(it.fields);
    forall i | 0 <= i < |it.variants|
      ensures TrimFields(TrimFields(it.variants[i])) == TrimFields(it.variants[i])
    {
      TrimFieldsIdempotent(it.variants[i]);
    }
  }

  /**
   * Building a document from items read back and reading it again gives the same items: the
   * parser's trimming has nothing left to remove.
   */
  lemma ReparseAllIdempotent(items: seq<Item>)
    ensures ReparseAll(ReparseAll(items)) == ReparseAll(items)
  {
    forall i | 0 <= i < |items|
      ensures Reparse(Reparse(items[i])) == Reparse(items[i])
    {
      ReparseIdempotent(items[i]);
    }
  }

  // ---------------------------------------------------------------- description rewrite

  /** A truthy `g:description` is replaced by its `cleanHtml` text; any other item is unchanged. */
  function RewriteDescription(it: Item): (r: Item)
    ensures Get(it.fields, GDescription) == "" ==> r == it
    ensures r.variants == it.variants && r.fields.Keys == it.fields.Keys
    ensures forall k :: k in it.fields && k != GDescription ==> r.fields[k] == it.fields[k]
    ensures Get(it.fields, GDescription) != "" ==>
      Get(r.fields, GDescription) == CleanHtml(Get(it.fields, GDescription))
  {
    var key := GDescription;
    if key in it.fields && it.fields[key] != "" then
      var f := it.fields[key := CleanHtml(it.fields[key])];
      assert f.Keys == it.fields.Keys;
      it.(fields := f)
    else it
  }

  /** Every element other than `g:description` reads the same after the rewrite. */
  lemma RewriteGet(it: Item, k: Element)
    requires k != GDescription
    ensures Get(RewriteDescription(it).fields, k) == Get(it.fields, k)
  {
  }

  /** The item with its `g:description` replaced by the cleaned text. */
  function CleanDescription(it: Item): Item
    requires GDescription in it.fields
  {
    it.(fields := it.fields[GDescription := CleanHtml(it.fields[GDescription])])
  }

  /** One step of the pass rewrites the item as `RewriteDescription` does. */
  lemma RewriteStep(it: Item, item: Item)
    requires item == if Get(it.fields, GDescription) != "" then CleanDescription(it) else it
    ensures item == RewriteDescription(it)
  {
  }

  /** An item without a `g:description` element is left as it is. */
  lemma RewriteNoDescription(it: Item)
    requires GDescription !in it.fields
    ensures RewriteDescription(it) == it
  {
  }
}
