# M.Officer catalogue feeds, modelled in Dafny

The M.Officer storefront publishes its Shopify catalogue in two ways. Google Merchant gets
RSS 2.0 product feeds with Google namespaced elements. A MongoDB product collection gets the
records the site reads. Four Next.js route handlers do this work. Each one pages through the
Shopify Admin products endpoint by following the `rel="next"` target of the `Link` response
header (a simplification of the Web Linking header, RFC 8288 section 3). Each then filters the
products, normalises them, and either builds feed items or upserts store records:

- `app/api/google-feedNew/route.js` caps the crawl at `limit` products. It keeps the listed,
  in-stock products and cleans them. It emits one item per (product, variant) pair, then
  repairs the feed by dropping items without an image link or title.
- `app/api/google-feed/route.js` serves a sitemap index, one `loc` per feed page, or one feed
  page. It crawls until enough cleaned products exist for the requested page and returns that
  page's window. It emits one item per product, with one `g:variants` child per variant. Its
  repair pass rewrites descriptions and logs items whose image is missing.
- `app/api/generateFeed/route.js` crawls the whole catalogue and keeps the in-stock products.
  It fills price and quantity defaults and emits one item per product.
- `app/api/dbseed/route.js` crawls the whole catalogue. It keeps the listed, in-stock products,
  maps each to a store record and upserts the records by id. It stops at the first failed write.

The model has one module per route file: `GoogleFeedNew`, `GoogleFeed`, `GenerateFeed` and
`DbSeed`. The routes copy the same pipeline with different rules, so each copy is modelled
separately. Shared modules hold what the routes use in common:

- `Catalog`: products, variants and response pages, plus the crawl's specification functions.
- `LinkHeader`: the next-link scanner.
- `Numbers`: JavaScript's number parsing and formatting.
- `Text`: trimming, case and XML escaping.
- `Html`: `cleanHtml`.
- `FeedXml`: feed items as element maps, and reading a built feed back.
- `Seqs`: list operations.
- `Wrappers`: Option and Result.

How the model stands in for the world:

- The upstream is a finite sequence of response pages served in order. A request past the
  last page is a failed request, that is, the exception the routes catch.
- Every crawl also returns the list of URLs it requested. This is how the model states that
  the crawl follows next links.
- Loops that update variables are methods with loop invariants, proved against specification
  functions.
- The product store is a class whose `records` map the upserts update in place.
- A feed is a list of items, each a map from element to text. The XML text itself is not modelled.

## Model

| member | source | states |
|---|---|---|
| LinkHeader.MatchAt | app/api/google-feedNew/route.js:43 | a match at this position starts with '<', captures a non-empty target without '>', and is followed by `>; rel="next"` |
| LinkHeader.NextLinkLeftmost | app/api/google-feedNew/route.js:43-45 | the next link is the capture at the leftmost matching position, and None when no position matches |
| LinkHeader.NoEarlierMatch | app/api/google-feedNew/route.js:43 | no position before the one found matches |
| LinkHeader.NoAngleSkip | app/api/google-feedNew/route.js:43 | text without '<' before a header cannot change the link found |
| LinkHeader.RelIsNext | app/api/google-feedNew/route.js:43 | a rendered `rel` parameter starts with `; rel="next"` exactly when the relation type is "next" |
| LinkHeader.MatchRendered | app/api/google-feedNew/route.js:43 | a rendered link-value matches exactly when its relation is "next", capturing its target |
| LinkHeader.NextLinkCons | app/api/google-feedNew/route.js:43-45 | a header starting with a link-value yields that target if it is "next" and otherwise the rest's next link |
| LinkHeader.NextLinkRendered | app/api/google-feedNew/route.js:41-51 | for a well-formed header of link-values, the lookup finds the target of the first link-value whose relation is "next" |
| LinkHeader.NextLinkSeparated | app/api/google-feedNew/route.js:43 | the same with the link-values joined by ", " |
| Catalog.InStockAt | app/api/google-feedNew/route.js:69-71 | the left-to-right scan finds a positive quantity exactly when some variant has one |
| Catalog.AnyPositiveAt | app/api/google-feedNew/route.js:70 | the scan over a variant list is true exactly when some position holds a positive quantity |
| Catalog.Availability | app/api/google-feedNew/route.js:142 | "in stock" exactly when the quantity is positive, otherwise "out of stock" |
| Catalog.NextUrl | app/api/generateFeed/route.js:29-39 | no `link` header gives no next request; a header gives the lookup's result |
| Catalog.CollectedNext | app/api/generateFeed/route.js:27 | collecting one more page appends its products, in order |
| Catalog.CollectedAppend | app/api/generateFeed/route.js:27 | collecting two runs of pages concatenates their products |
| Catalog.LastPage | app/api/generateFeed/route.js:20-40 | the page where a next-link crawl stops has no next link and lies at or after the start |
| Catalog.LastPageFirst | app/api/generateFeed/route.js:20-40 | every page before the stop has a next link, so the crawl stops at the first page without one |
| Catalog.LastPageOfPrefix | app/api/generateFeed/route.js:20-40 | pages after the first one without a next link do not change where the crawl stops |
| Catalog.Requests | app/api/generateFeed/route.js:16-33 | a crawl of n requests asks for n URLs: the start URL first, then for each later request the URL taken from the page before it |
| Catalog.RequestsAt | app/api/generateFeed/route.js:16-33 | request 0 asks for the start URL; request j asks for the next link of page j - 1 whenever that page has one |
| Catalog.RequestsNext | app/api/generateFeed/route.js:21-33 | one more request appends the URL of that request, which is the previous page's next link |
| Catalog.CollectedPrefix | app/api/generateFeed/route.js:27 | the products collected through any page are products of the upstream |
| Catalog.AllRequests | app/api/generateFeed/route.js:20-40 | an uncapped crawl makes between one request and one more than there are pages |
| Catalog.CrawlAllWhole | app/api/generateFeed/route.js:20-40 | with no cap, when only the last page lacks a next link, the crawl collects every page and makes one request per page; when every page links on, it fails |
| Catalog.CrawlAllPrefix | app/api/generateFeed/route.js:20-46 | the uncapped crawl succeeds exactly when some page lacks a next link, and then holds the pages through the first such page, in order |
| Seqs.Filter | app/api/google-feedNew/route.js:62-71 | the kept elements come from the input and pass the test; every input element that passes is kept |
| Seqs.FilterAppend | app/api/google-feedNew/route.js:62-71 | filtering distributes over concatenation, so order is preserved |
| Seqs.FilterIdempotent | app/api/google-feedNew/route.js:62-71 | filtering twice with one test equals filtering once |
| Seqs.FilterMap | app/api/google-feedNew/route.js:161-206 | mapping to null and dropping the nulls keeps exactly the values of the non-null results |
| Seqs.FilterMapEmpty | app/api/google-feedNew/route.js:195-198 | nothing survives exactly when every element maps to null |
| Seqs.FilterMapAppend | app/api/google-feedNew/route.js:161-206 | map-then-drop-nulls distributes over concatenation |
| Seqs.FlatMapAppend | app/api/google-feedNew/route.js:133-151 | flat-mapping distributes over concatenation |
| Seqs.FlatMapMiddle | app/api/google-feedNew/route.js:133-151 | the results of one element sit right after those of the elements before it |
| Seqs.Slice | app/api/google-feed/route.js:136-138 | slicing is clamped to the length, holds at most hi - lo elements, and is the subsequence when in range |
| Seqs.MapSlice | app/api/google-feed/route.js:136-138 | slicing commutes with mapping |
| Seqs.FilterMapCommute | app/api/google-feed/route.js:126-133 | filtering after a change that does not affect the test equals filtering before it |
| Seqs.FilterAlike | app/api/google-feed/route.js:235-264 | lists that agree position by position under a view and a test keep survivors that agree under the view |
| Seqs.MapInPlace | app/api/google-feed/route.js:211-221 | a loop that rewrites a list element by element holds the mapped prefix followed by the untouched rest, and ends with the mapped list |
| Text.TrimStart | app/api/google-feedNew/route.js:214 | the result is no longer and does not start with white space |
| Text.TrimStartDropsSpaces | app/api/google-feedNew/route.js:214 | the result is a suffix of the input, and everything dropped is white space |
| Text.TrimEnd | app/api/google-feedNew/route.js:214 | the result is a prefix, does not end with white space, and everything dropped is white space |
| Text.Trim | app/api/google-feedNew/route.js:214 | the result has no white space at either end, and is empty exactly when the input is all white space |
| Text.TrimTidy | app/api/google-feedNew/route.js:214 | text without white space at its ends is its own trim |
| Text.TrimIdempotent | app/api/google-feedNew/route.js:214 | trimming twice equals trimming once |
| Text.LowerAll | app/api/google-feedNew/route.js:118 | lower-casing keeps the length and lower-cases each character |
| Text.ToSentenceCase | app/api/google-feedNew/route.js:116-119 | the result keeps the length and the letters up to case, with the first character upper-cased and the rest lower-cased; "" stays "" |
| Text.SentenceCaseCons | app/api/google-feedNew/route.js:118 | the result is the upper-cased first character followed by the lower-cased rest |
| Text.SentenceCaseIdempotent | app/api/google-feedNew/route.js:116-119 | applying sentence case twice equals applying it once |
| Text.ReplaceChar | app/api/google-feedNew/route.js:109-113 | after a global single-character replacement, the character is gone unless the replacement contains it, and nothing new appears |
| Text.ReplaceCharAppend | app/api/google-feedNew/route.js:109-113 | the replacement distributes over concatenation |
| Text.ReplaceCharAbsent | app/api/google-feedNew/route.js:109-113 | text without the character is unchanged |
| Text.EscapeChar | app/api/google-feedNew/route.js:107-114 | a character's escape is non-empty and holds no quote or apostrophe |
| Text.EscapeXml | app/api/google-feedNew/route.js:107-114 | escaped text holds no raw quote or apostrophe and is no shorter |
| Text.EscapeChainIsEscapeXml | app/api/google-feedNew/route.js:107-114 | the chain of five replacements as written (with `&` first and the identity `<` and `>` steps) equals escaping character by character |
| Text.EscapeAmpersand | app/api/google-feedNew/route.js:109 | "&" escapes to "&amp;" and is not escaped twice |
| Text.EscapeQuote | app/api/google-feedNew/route.js:109-112 | a quote escapes to "&quot;", whose '&' is not escaped again |
| Text.EscapePlain | app/api/google-feedNew/route.js:107-114 | text without '&', quote or apostrophe is its own escape, '<' and '>' included |
| Text.EscapeRoundTrip | app/api/google-feedNew/route.js:107-114 | un-escaping the five entities gives back the original text |
| Numbers.NatToString | app/api/google-feed/route.js:20 | a natural number prints as a non-empty digit string without leading zeros |
| Numbers.NatToStringRoundTrip | app/api/google-feed/route.js:20 | the printed digits have the number's value |
| Numbers.NatToStringInjective | app/api/google-feed/route.js:20 | different numbers print differently |
| Numbers.IntToString | app/api/google-feedNew/route.js:135 | an integer prints with a leading '-' exactly when negative, and as digits otherwise |
| Numbers.ParseIntNatToString | app/api/google-feed/route.js:20-32 | `parseInt` reads back the page number the index printed |
| Numbers.ParseIntHex | app/api/google-feed/route.js:32-33 | `parseInt` without a radix reads "0x" followed by hexadecimal digits as a base-16 number |
| Numbers.FormatCents | app/api/google-feedNew/route.js:188 | the two-decimal text is digits, a point and exactly two digits, with an optional leading '-' |
| Numbers.ParseFormatCents | app/api/google-feedNew/route.js:188 | `parseFloat` of the two-decimal text gives back the amount in hundredths |
| Numbers.Fixed2Idempotent | app/api/google-feedNew/route.js:140 | formatting to two decimals again after parsing the output changes nothing, NaN included |
| Numbers.NaNUnparsed | app/api/google-feedNew/route.js:140 | the text "NaN" parses as NaN |
| Numbers.NumberOfCents | app/api/dbseed/route.js:53-62 | Number coercion of a two-decimal price string is its exact value in hundredths, never NaN |
| Numbers.NumberOfNatToString | app/api/dbseed/route.js:57-62 | Number coercion of a digit string is the number it prints, so a numeric SKU keeps its value |
| Numbers.CentsExact | app/api/google-feedNew/route.js:188 | a value with two decimals rounds to itself in hundredths |
| Numbers.ScanTwoDecimals | app/api/google-feedNew/route.js:140 | scanning digits, a point and two digits reads the whole number in hundredths |
| Html.StripTags | app/api/google-feedNew/route.js:211 | tag removal leaves no tag, is no longer, and keeps a first character other than '<' |
| Html.StripTagsNoTag | app/api/google-feedNew/route.js:211 | text without a tag is unchanged |
| Html.RemoveCarriageReturns | app/api/google-feedNew/route.js:214 | removing "&#xD;" does not lengthen the text |
| Html.RemoveCarriageReturnsKeeps | app/api/google-feedNew/route.js:214 | a character that does not start the entity is kept |
| Html.RemoveCarriageReturnsDrops | app/api/google-feedNew/route.js:214 | an entity at the front is dropped and the scan resumes after it |
| Html.SqueezeNewlines | app/api/google-feedNew/route.js:217 | collapsing newline runs keeps emptiness and the first and last characters |
| Html.SqueezeSpaces | app/api/google-feedNew/route.js:217 | collapsing white-space runs leaves no two consecutive white-space characters and keeps white space at each end as it was |
| Html.CleanHtml | app/api/google-feedNew/route.js:209-220 | the cleaned description has no white space at either end and no two consecutive white-space characters |
| Html.Squeeze | app/api/google-feedNew/route.js:217 | collapsing both kinds of run on trimmed text gives tidy text |
| Html.SqueezeNoSpace | app/api/google-feedNew/route.js:217 | text without white space is not changed by either collapse |
| Html.CleanHtmlPlain | app/api/google-feedNew/route.js:209-220 | text with no tag, entity or white space is unchanged |
| Html.EntityInsideEntity | app/api/google-feedNew/route.js:214 | one left-to-right removal turns "&#x&#xD;D;" into "&#xD;" |
| Html.CleanHtmlNestedEntity | app/api/google-feedNew/route.js:209-220 | cleaning "&#x&#xD;D;" leaves an "&#xD;" entity |
| Html.CleanHtmlEntity | app/api/google-feedNew/route.js:214 | cleaning the entity alone gives "" |
| Html.CleanHtmlNotIdempotent | app/api/google-feed/route.js:126-133 | cleaning is not idempotent: a second clean of "&#x&#xD;D;" differs from the first |
| FeedXml.ParseItems | app/api/google-feedNew/route.js:226-228 | without forced arrays, no item reads as absent, one as a bare item and several as a list |
| FeedXml.NormalizeParse | app/api/google-feedNew/route.js:228-231 | normalising gives back every built item, in order, read back |
| FeedXml.ReparseIdempotent | app/api/google-feedNew/route.js:226 | an item read back reads back the same once more: the parser's trimming leaves nothing further to remove |
| FeedXml.ReparseAllIdempotent | app/api/google-feedNew/route.js:226 | reading back a list of items that was already read back changes nothing, item by item and in order |
| FeedXml.RewriteDescription | app/api/google-feedNew/route.js:246-248 | a truthy `g:description` becomes its cleaned text; every other element, the element set and the children are unchanged |
| FeedXml.RewriteGet | app/api/google-feedNew/route.js:246-248 | every element other than `g:description` reads the same after the rewrite |
| FeedXml.RewriteStep | app/api/google-feedNew/route.js:245-249 | one step of the in-place pass equals the rewrite |
| FeedXml.RewriteNoDescription | app/api/google-feedNew/route.js:246 | an item without `g:description` is left as it is |
| GoogleFeedNew.CapStop | app/api/google-feedNew/route.js:24-52 | the capped crawl stops at a page through which at least `limit` products are collected, or at a page without a next link |
| GoogleFeedNew.CapStopFirst | app/api/google-feedNew/route.js:35-51 | every page before the stop is short of `limit` and links on: the crawl stops at the first such page |
| GoogleFeedNew.Take | app/api/google-feedNew/route.js:35-37 | the trimmed list is a prefix of the collected products, of at most `limit` products unless it is all of them |
| GoogleFeedNew.CapRequests | app/api/google-feedNew/route.js:24-52 | the capped crawl makes between one request and one more than there are pages |
| GoogleFeedNew.Crawl | app/api/google-feedNew/route.js:24-52 | a successful crawl from page i makes more than i requests and no more than there are pages |
| GoogleFeedNew.CrawlFrom | app/api/google-feedNew/route.js:24-52 | the crawl ends where the stop function says, holding the first `limit` products of the pages through there, in order; a failed request gives None |
| GoogleFeedNew.FetchedByCrawl | app/api/google-feedNew/route.js:24-102 | the result is the listed, in-stock products of the crawl, or [] when a request fails |
| GoogleFeedNew.FetchProducts | app/api/google-feedNew/route.js:18-103 | the loop returns the specified products and requests the start URL and then each next link, stopping as the crawl does |
| GoogleFeedNew.FetchedAtMostLimit | app/api/google-feedNew/route.js:35-37 | at most `limit` products are returned |
| GoogleFeedNew.FetchedEligible | app/api/google-feedNew/route.js:62-71 | every product returned has an image, is active, has a variant in stock and came from the upstream |
| GoogleFeedNew.CapAtFirstPage | app/api/google-feedNew/route.js:35-37 | when the first page already holds `limit` products, one request is made |
| GoogleFeedNew.CleanVariantsEmpty | app/api/google-feedNew/route.js:180-198 | no variant survives exactly when none has a truthy price and SKU and a non-negative quantity |
| GoogleFeedNew.CleanVariantsMembers | app/api/google-feedNew/route.js:180-195 | the surviving variants are exactly the cleaned copies of the variants that pass |
| GoogleFeedNew.CleanVariantShape | app/api/google-feedNew/route.js:183-193 | a surviving variant keeps its id, SKU and quantity; its price has two decimals (or is "NaN"); its availability is "in stock" exactly when the quantity is positive |
| GoogleFeedNew.CleanProduct | app/api/google-feedNew/route.js:163-205 | a product survives exactly when it has a title, a description, an image and active status, and some variant passes |
| GoogleFeedNew.CleanProductDataAppend | app/api/google-feedNew/route.js:161-207 | cleaning distributes over concatenation, so product order is preserved |
| GoogleFeedNew.CleanProductShape | app/api/google-feedNew/route.js:174-204 | a survivor keeps its id, title and image; its description is cleaned and tidy; its variants are the cleaned passing ones in order; brand defaults to "M.Officer" and condition to "new" |
| GoogleFeedNew.CleanDropsBodyless | app/api/google-feedNew/route.js:165-172 | a list of products none of which has a `body_html` is cleaned to nothing |
| GoogleFeedNew.SentenceCaseFallback | app/api/google-feedNew/route.js:136 | the title fallback in sentence case is "No title available" |
| GoogleFeedNew.TitleFallback | app/api/google-feedNew/route.js:136-137 | an empty title gives the item title "No title available" |
| GoogleFeedNew.EscapeTitleFallback | app/api/google-feedNew/route.js:136 | the title fallback needs no escaping |
| GoogleFeedNew.EscapeDescriptionFallback | app/api/google-feedNew/route.js:138 | the description fallback needs no escaping |
| GoogleFeedNew.ItemTitleAsWritten | app/api/google-feedNew/route.js:136-137 | the item title is the escaped sentence case of the title, or of "No Title Available" |
| GoogleFeedNew.ItemDescriptionAsWritten | app/api/google-feedNew/route.js:138 | the item description is the escaped description, or "No Description Available" |
| GoogleFeedNew.ProductItems | app/api/google-feedNew/route.js:134-150 | a product gives one item per variant, in variant order |
| GoogleFeedNew.FeedLength | app/api/google-feedNew/route.js:133-151 | the feed has as many items as the products have variants in total |
| GoogleFeedNew.FeedAppend | app/api/google-feedNew/route.js:133-151 | the feed of concatenated product lists is the concatenation of their feeds |
| GoogleFeedNew.ItemAt | app/api/google-feedNew/route.js:133-151 | the item of variant j of a product sits right after the items of the products before it |
| GoogleFeedNew.BuiltFrom | app/api/google-feedNew/route.js:133-151 | every item comes from a product and one of its variants |
| GoogleFeedNew.ItemLaws | app/api/google-feedNew/route.js:135-149 | `g:id` is product id, '-', variant id; `g:price` is the two-decimal price plus " BRL"; availability is "in stock" exactly when the quantity is positive; the title is escaped sentence case with its fallback and holds no quote; description, category and type follow their fallbacks; there is no `g:description` |
| GoogleFeedNew.DashSplit | app/api/google-feedNew/route.js:135 | two digit strings joined to suffixes by '-' are equal only if both parts are |
| GoogleFeedNew.CompositeIdInjective | app/api/google-feedNew/route.js:135 | distinct (product id, variant id) pairs of non-negative ids give distinct `g:id` values |
| GoogleFeedNew.CleanedPriceText | app/api/google-feedNew/route.js:140 | the price cleaning step does not change the feed's price text |
| GoogleFeedNew.ReparseValid | app/api/google-feedNew/route.js:236-240 | an item read back passes the repair filter exactly when its image link and title are not blank once trimmed |
| GoogleFeedNew.MakeItemValid | app/api/google-feedNew/route.js:236-240 | a built item passes exactly when the product's image source and item title are not blank |
| GoogleFeedNew.ValidSameFields | app/api/google-feedNew/route.js:236-240 | the filter looks only at the image link and the title |
| GoogleFeedNew.RewriteKeepsValid | app/api/google-feedNew/route.js:236-248 | rewriting the description does not change whether an item passes |
| GoogleFeedNew.FixXmlData | app/api/google-feedNew/route.js:223-260 | the repair reads the feed back, keeps the valid items in order and rewrites their descriptions |
| GoogleFeedNew.CleanDescriptions | app/api/google-feedNew/route.js:244-250 | the in-place pass leaves each item rewritten, in order |
| GoogleFeedNew.RepairedKeepsValid | app/api/google-feedNew/route.js:234-250 | the repair drops items only, keeps only valid ones, and keeps every valid item, rewritten |
| GoogleFeedNew.RepairedWithoutDescriptions | app/api/google-feedNew/route.js:234-250 | when no item has `g:description`, the repair is exactly the filter |
| GoogleFeedNew.FeedRepairOnlyFilters | app/api/google-feedNew/route.js:234-250 | on a built feed, whose items carry `description` and not `g:description`, the repair only filters |
| GoogleFeed.PrepareLaws | app/api/google-feed/route.js:237-261 | one clean step changes only the description and the variants; a listed product gets a tidy description and keeps exactly its variants with a price and a non-zero quantity |
| GoogleFeed.CleanSurvivors | app/api/google-feed/route.js:235-264 | every survivor is listed, tidy and has variants, all of which pass; survivors are exactly the prepared eligible inputs |
| GoogleFeed.PrepareAgain | app/api/google-feed/route.js:126-133 | a second clean of the same object removes no variant and does not change whether it survives |
| GoogleFeed.CleanAgain | app/api/google-feed/route.js:126-133 | re-cleaning the mutated objects keeps every earlier survivor, each with the same variants |
| GoogleFeed.PrepareSkeleton | app/api/google-feed/route.js:237-261 | a clean step does not change a product apart from its description and variants, nor whether it survives |
| GoogleFeed.EligibleSkeleton | app/api/google-feed/route.js:239-259 | survival does not depend on the description |
| GoogleFeed.SurvivorsSkeleton | app/api/google-feed/route.js:235-264 | objects that look like the sent products leave survivors that look like the eligible sent products, as many, in order |
| GoogleFeed.CleanKeepsSkeletons | app/api/google-feed/route.js:235-264 | cleaning keeps every object looking like the product sent |
| GoogleFeed.Walk | app/api/google-feed/route.js:100-130 | a successful crawl from page i makes more than i requests and no more than there are pages |
| GoogleFeed.WalkStop | app/api/google-feed/route.js:112-129 | the crawl stops at a page without a next link, or at one through which `need` products are eligible |
| GoogleFeed.WalkStopFirst | app/api/google-feed/route.js:112-129 | every page before the stop links on and is short of `need` eligible products, so the crawl stops at the first page that does neither |
| GoogleFeed.WalkFrom | app/api/google-feed/route.js:100-130 | the crawl ends where the stop function says, after that many requests, holding objects that look like the pages through the stop |
| GoogleFeed.SkeletonNext | app/api/google-feed/route.js:108-109 | appending a page keeps the objects looking like the pages collected |
| GoogleFeed.CleanStep | app/api/google-feed/route.js:126-127 | the in-loop clean counts as many survivors as the pages hold eligible products |
| GoogleFeed.WalkRequests | app/api/google-feed/route.js:100-130 | the crawl makes between one request and one more than there are pages |
| GoogleFeed.CrawlPages | app/api/google-feed/route.js:95-130 | the loop ends holding the objects the crawl specifies, or fails as it does, having requested the start URL and then each next link |
| GoogleFeed.FetchProducts | app/api/google-feed/route.js:94-146 | the result is the page window of the final clean, or [] when a request fails; the requests are those of the crawl |
| GoogleFeed.FetchedFailed | app/api/google-feed/route.js:139-145 | a failed request gives [] |
| GoogleFeed.FetchedWindow | app/api/google-feed/route.js:132-138 | a finished crawl gives the window of one more clean of its objects |
| GoogleFeed.FetchedAtMostLimit | app/api/google-feed/route.js:136-138 | at most `limit` products are returned |
| GoogleFeed.FetchedShape | app/api/google-feed/route.js:94-146 | the result, description aside, is the window for `page` of the eligible products of the pages through the stop, in upstream order |
| GoogleFeed.FetchedEligible | app/api/google-feed/route.js:239-259 | every product returned has an image, is active, has a tidy description and only variants with a price and a non-zero quantity |
| GoogleFeed.Fixed2NonEmpty | app/api/google-feed/route.js:180 | two-decimal formatting never gives "", so the "0.00" fallback is never taken |
| GoogleFeed.ProductItemLaws | app/api/google-feed/route.js:172-183 | `g:id` is the product id; the description falls back to "No Description available"; price and availability come from the first variant, and the price is "NaN BRL" without one |
| GoogleFeed.VariantChildrenLaws | app/api/google-feed/route.js:161-182 | one `g:variants` child per variant, in order, none for a product without variants |
| GoogleFeed.MissingLinksEmpty | app/api/google-feed/route.js:211-216 | the log is empty exactly when no item's image link is missing or blank |
| GoogleFeed.CheckItem | app/api/google-feed/route.js:211-221 | the callback logs a line exactly when the image link is missing, reading the description first, then rewrites the description |
| GoogleFeed.CheckItems | app/api/google-feed/route.js:203-221 | the pass rewrites every item in order and logs the lines in item order |
| GoogleFeed.MissingStepAppend | app/api/google-feed/route.js:211-216 | one more item appends its line, if any, to the log |
| GoogleFeed.FixXmlData | app/api/google-feed/route.js:193-233 | the repair fails exactly when some item read back lacks an image link, since the log write throws; otherwise every item is kept, rewritten |
| GoogleFeed.ItemMissingImage | app/api/google-feed/route.js:177-212 | a built item's image link is missing exactly when the product's image source is blank |
| GoogleFeed.FeedMissingImage | app/api/google-feed/route.js:211-225 | the repair of a built feed fails exactly when some product's image source is blank |
| GoogleFeed.RepairRewritesDescriptions | app/api/google-feed/route.js:175-221 | the repair removes no item; item i is product i's item read back, with its description (or the fallback) trimmed and cleaned |
| GoogleFeed.PageOf | app/api/google-feed/route.js:32 | a page number that is kept is never 0: a zero page, like a missing or unparseable one, means no page |
| GoogleFeed.PageOfHexPrefix | app/api/google-feed/route.js:32 | a `page` parameter "0x2" asks for page 2, not for the index |
| GoogleFeed.LimitOf | app/api/google-feed/route.js:33 | the limit is never 0; it is 50 when missing, unparseable or zero |
| GoogleFeed.TotalPages | app/api/google-feed/route.js:37 | the page count has the sign of the limit |
| GoogleFeed.TotalPagesCeiling | app/api/google-feed/route.js:37 | for a positive limit, the page count is the least number of `limit` pages covering the total |
| GoogleFeed.TotalPagesNegative | app/api/google-feed/route.js:37 | for a negative limit, the page count is the ceiling of a negative quotient |
| GoogleFeed.IndexPagesAccepted | app/api/google-feed/route.js:15-48 | the index lists `totalPages` locations; entry i points to page i + 1, which the route reads back and accepts |
| GoogleFeed.HandleGet | app/api/google-feed/route.js:28-76 | no page gives the index; a page outside 1..totalPages gives 400; a page window with no products gives 404; a failed repair gives 500; otherwise the repaired feed is sent as products_page.xml |
| GenerateFeed.FetchProducts | app/api/generateFeed/route.js:14-47 | the loop returns the in-stock products of the uncapped crawl, or [] on a failed request, having requested the start URL and then each next link |
| GenerateFeed.FetchedInStock | app/api/generateFeed/route.js:20-42 | every product returned is in stock and came from the upstream; when only the last page lacks a next link, every in-stock product is returned, in order |
| GenerateFeed.CleanVariantLaws | app/api/generateFeed/route.js:53-57 | a cleaned variant keeps every field except that price defaults to "0.00" and quantity to 0, and it is in stock exactly when the original is |
| GenerateFeed.CleanProductLaws | app/api/generateFeed/route.js:52-58 | a cleaned product changes only its variants, has as many, each cleaned in place, and is in stock exactly when the original is |
| GenerateFeed.CleanProductDataOrder | app/api/generateFeed/route.js:50-60 | cleaning distributes over concatenation and keeps a product exactly when it is listed |
| GenerateFeed.CleanProductDataMembers | app/api/generateFeed/route.js:51 | the cleaned list holds exactly the cleaned listed products |
| GenerateFeed.ProductItemLaws | app/api/generateFeed/route.js:75-82 | `g:id` is the product id; the description falls back to "No description available"; the link is the shop URL plus the handle; price and availability come from the first variant |
| GenerateFeed.FeedOrder | app/api/generateFeed/route.js:74 | one item per product, in order, each with its product's id |
| GenerateFeed.HandleGet | app/api/generateFeed/route.js:94-112 | 404 "No products found!" exactly when the fetch yields nothing; otherwise the feed of the cleaned products |
| GenerateFeed.ServedFeed | app/api/generateFeed/route.js:14-112 | a served feed holds one item per listed in-stock product of the crawl, in order, with its id and its first variant's price under the "0.00" default |
| GenerateFeed.CleanedItem | app/api/generateFeed/route.js:53-81 | an in-stock product has a first variant, and its cleaned item carries its id and that variant's defaulted price |
| DbSeed.RecordLaws | app/api/dbseed/route.js:47-65 | the record keeps id, title, description and image; the link is the shop URL plus a truthy handle and "" otherwise; condition "new"; availability "in stock" exactly when in stock; variants map one to one, in order, with the numeric coercions and defaults |
| DbSeed.RecordFirstVariant | app/api/dbseed/route.js:53-57 | the record's price and SKU are those of its first variant's record, and 0 and "" without variants |
| DbSeed.Store.Upsert | app/api/dbseed/route.js:66-70 | a write by id creates or replaces the record under that id and fails for rejected ids, changing nothing |
| DbSeed.UpsertedKeys | app/api/dbseed/route.js:46-70 | after the writes, the store holds an id exactly when it held it before or some record has it |
| DbSeed.UpsertedUntouched | app/api/dbseed/route.js:66-70 | an id that no record has keeps its old record |
| DbSeed.UpsertedLastWrite | app/api/dbseed/route.js:66-70 | a record is stored under its id unless a later record has the same id: the last write wins |
| DbSeed.UpsertedDistinct | app/api/dbseed/route.js:46-70 | with distinct ids, every record written is stored |
| DbSeed.UpsertedNext | app/api/dbseed/route.js:66-70 | one more write stores one more record under its id |
| DbSeed.Writes | app/api/dbseed/route.js:46-66 | one record per product, in order, under the product's id |
| DbSeed.SeedKeys | app/api/dbseed/route.js:46-70 | after a run, the store holds an id exactly when it held it before or a saved product has it |
| DbSeed.SeedUntouched | app/api/dbseed/route.js:66-70 | records with ids of no saved product are unchanged |
| DbSeed.SeedLastWrite | app/api/dbseed/route.js:46-70 | each saved product id holds the freshly built record of the last product with that id |
| DbSeed.FirstRejected | app/api/dbseed/route.js:46-75 | the first failing position: every product before it writes and the product there is rejected |
| DbSeed.SavedEligible | app/api/dbseed/route.js:38-55 | every saved product has an image, is active, is in stock and came from the upstream, so every saved record says "in stock" |
| DbSeed.SavedWhole | app/api/dbseed/route.js:15-43 | with no cap, when only the last page lacks a next link, every listed in-stock product of the upstream is saved, in order |
| DbSeed.Crawl | app/api/dbseed/route.js:9-35 | the loop collects the pages of the uncapped crawl, or fails when a request does, having requested the start URL and then each next link |
| DbSeed.SaveAll | app/api/dbseed/route.js:46-76 | the loop writes the records of the products before the first rejected one, in order, and answers with that product's error, or with the count when none is rejected |
| DbSeed.FetchProducts | app/api/dbseed/route.js:9-84 | a failed request answers 500 and writes nothing; otherwise the store gets the records of the saved products up to the first failed write, and the answer is that error or the count of saved products |

## Left out

- Network I/O, the Shopify access token, `NextResponse` headers and content types, and the
  MongoDB connection. The upstream is a parameter, and a failed request is the end of the page
  list. Only the failure of a request is modelled, not the status codes or the error bodies.
- xml2js's builder and parser. Feeds are item maps. Reading a built feed back is modelled as
  trimming every text, plus the shape of the `item` field with no, one or many items.
- Floating point. `parseFloat` and Number coercion read decimal text exactly, and `toFixed(2)`
  rounds half away from zero. Binary rounding, exponents and Infinity are not modelled, nor
  are the hexadecimal, octal and binary literals that Number coercion accepts ("0x10" is 16).
  `parseInt` does read a "0x" prefix as hexadecimal (`Numbers.ParseIntHex`).
- Null and missing text fields. A null or absent `handle`, `title`, `body_html`,
  `product_type` or `image.src` is modelled as "". Where the routes only test such a field
  for truthiness or give it a default, the two agree. They differ where the routes print or
  copy the value itself. A template literal prints null as "null", so a null handle gives a
  link ending in `/products/null` (google-feed/route.js:176, generateFeed/route.js:78,
  google-feedNew/route.js:139); the model ends the link at `/products/`. The dbseed record
  copies a null title or description (dbseed/route.js:50-51) where the model stores "".
- JavaScript's full regular expressions and Unicode white space and case mapping. White space
  is the ASCII `\s` set, and case mapping covers ASCII letters.
- The GET handler of `app/api/google-feedNew/route.js` reads documents from the product store
  and is not modelled. `GoogleFeedNew.CleanDropsBodyless` records why its cleaning step would
  drop them all: store records have no `body_html`.
- The 500 branch of the generateFeed GET is unreachable in the model, whose XML builder is left
  out: the model's fetch catches every failure, and building a feed cannot fail. The
  `Array.isArray` guard in google-feedNew's fetch (line 55) is not modelled: the crawl builds
  its list with `concat`, which always gives an array.
- The product store schema in app/model/product.js casts ids to strings and rejects records
  whose numeric fields are NaN. The model stores records as built; a write fails only for an
  id in `Store.rejects`, which stands for the database refusing the write.
- DbSeed.SaveAll: answers the first failed write with the product's id, not the error object
  the route returns.
- DbSeed.Crawl and GenerateFeed.FetchProducts: negative or non-numeric page sizes do not occur,
  since the routes use the constants 250 and 50.
- GoogleFeed.FetchedShape: states the window up to the products' descriptions. The route
  cleans the same objects a varying number of times, and `cleanHtml` is not idempotent
  (`Html.CleanHtmlNotIdempotent`), so the model states only that each description is tidy
  (`GoogleFeed.FetchedEligible`).
- GoogleFeed.FixXmlData: the missing-links log is never written, because `fs` is never
  imported in that route file, so a non-empty log makes the repair throw. The model returns
  that failure, and `GoogleFeed.HandleGet` answers it with 500, as the route does.
- In-place mutation of product and variant objects is modelled on values in google-feedNew
  and generateFeed, because no caller reads the originals again. In google-feed it is kept:
  the crawl holds the mutated objects and re-cleans them.
- The product count request of google-feed (`getTotalProductCount`) is a parameter of
  `GoogleFeed.HandleGet`: the count, or none when that request fails, which gives 0 products.
- Concurrent requests, such as webhook-triggered upserts interleaved with feed reads, are not
  modelled: each handler runs alone over its own store state.
- Console logging, the commented-out filtering alternatives, and the other routes (webhooks,
  webhook registration) are not part of this model.

