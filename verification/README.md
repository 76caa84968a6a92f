# cheery-scrapio ingestion pipeline, in Dafny

This project models the core of cheery-scrapio: the pipeline that turns scraped headline candidates into `Article` records and stores them. The records carry `title`, `link`, `time`, the `left`/`right` bias flags and `source`. Storage is insert-if-absent, keyed by `link`.

Three sources feed the pipeline:

- **Left: Democratic Underground.** A fallback chain of three selector strategies, where the first that matches anything wins. Then a trimmed-title filter, a case-insensitive "view all" denylist, and link resolution against `https://www.democraticunderground.com`.
- **Right: Free Republic.** A trimmed-title and href filter, and a plain prefix join with `http://www.freerepublic.com/`.
- **Center: BBC.** Headline-or-anchor text, a minimum title length of 10, link resolution against `https://www.bbc.com`, and de-duplication of links within the batch.

Every pipeline hands its batch to `upsertArticles`:

- An empty batch returns `{0, 0}` without touching the store.
- Any other batch issues one `bulkWrite` of `updateOne` operations. Each operation filters on `link`, uses `$setOnInsert` and sets `upsert: true`.
- `newCount` is the number of inserts. `duplicateCount` is the rest of the batch.

The older Express routes `/scrape/left` and `/scrape/right` in `server.js` are modelled too. They build articles without trimming or link resolution. They store them with a findOne-then-save loop that counts per record.

Modules, one per concern:

| file | module | contents |
|---|---|---|
| wrappers.dfy | `Wrappers` | `Option` (a missing HTML attribute), `Result` (a failed fetch) |
| text.dfy | `Text` | JavaScript `trim`, `startsWith`, `includes`, `toLowerCase` |
| seqs.dfy | `Seqs` | order-preserving `Filter` and `Collect` |
| articles.dfy | `Articles` | `Article`, the link-keyed `Store`, `ResolveLink` |
| ingest.dfy | `Ingest` | `upsertArticles` over a sequential `bulkWrite` |
| service.dfy | `ScraperService` | the three source pipelines |
| legacy.dfy | `LegacyRoutes` | the two `server.js` scrape routes and their save loop |

Modelling choices:

- **Store.** A `map<string, Article>`. `bulkWrite` is a left-to-right fold of insert-if-absent, and `upsertedCount` is the number of inserts.
- **HTML parsing.** Each selector's matches arrive as an input sequence of raw records, in document order. For the left source, strategies 1 and 3 are substring tests on `href`, so the model evaluates them itself. It filters the sequence of all anchors on the page. Strategy 2 (`td.subject a, td.title a`) is structural, so it is a separate input.
- **Missing attributes.** An absent attribute is `None`. JavaScript truthiness (`!href`) treats `""` as missing too.
- **String concatenation.** `server.js` concatenates a missing href as the text `"undefined"`, and the model does the same.
- **Fetching.** A fetch is an input of type `Result`. A failure is returned unchanged and nothing is written.

Three behaviours of the code are worth noting:

- Only the center pipeline de-duplicates links within a batch. Left and right batches may repeat a link, and `upsertArticles` then inserts it once and counts the repeat as a duplicate (`Ingest.RepeatedLinkCountedOnce`).
- Only the left source has more than one selector strategy, tried in order.
- The `server.js` routes neither trim titles nor reject a missing href (`LegacyRoutes.UntrimmedTitleKept`, `LegacyRoutes.MissingHrefStillKept`).

## Model

| member | source | states |
|---|---|---|
| Ingest.UpsertArticles | services/scraperService.js:30-46 | An empty batch gives `{0,0}` and no store call. Otherwise the issued call is the batch's operations. `newCount + duplicateCount` is the batch size. Stored records are untouched. The stored keys become the old keys plus the batch's links. `newCount` is the growth of the store. |
| Ingest.OpsFor | services/scraperService.js:33-39 | One operation per article, in order. Each filters on the article's own link and inserts that article unchanged. The operations' links are exactly the batch's links. |
| Ingest.ApplyOne | services/scraperService.js:34-38 | `$setOnInsert` with `upsert: true`: a matched link leaves the store unchanged with no insert. An unmatched link inserts the document under that link and counts one insert. |
| Ingest.BulkWrite | services/scraperService.js:41 | The sequential bulk write never changes a stored record. Every filtered link is stored afterwards and no other key appears. `upsertedCount` never exceeds the number of operations. |
| Ingest.BulkWriteCount | services/scraperService.js:41-42 | `upsertedCount` equals the number of records the write added. |
| Ingest.BulkWriteFirstWins | services/scraperService.js:33-41 | A link absent beforehand is stored with the document of the first operation that filters on it. |
| Ingest.BulkWriteAllPresent | services/scraperService.js:36-41 | If every filtered link is already stored, the write changes nothing and inserts nothing. |
| Ingest.BulkWriteKeepsKeying | services/scraperService.js:35-37 | Operations whose filter link is their document's link keep every record filed under its own link. |
| Ingest.NewCountIsFreshLinks | services/scraperService.js:42-43 | `newCount` is the number of distinct batch links not stored before. |
| Ingest.FirstArticleWins | services/scraperService.js:33-41 | The first article of a batch carrying a new link is the one stored. |
| Ingest.UpsertKeepsKeying | services/scraperService.js:33-41 | Ingestion keeps at most one record per link, each under its own link. |
| Ingest.UpsertIdempotent | services/scraperService.js:33-43 | Re-ingesting a batch right after ingesting it leaves the store unchanged and reports `{0, batch size}`. |
| Ingest.RepeatedLinkCountedOnce | services/scraperService.js:33-43 | Two articles with the same new link give `{1, 1}`, and the first article is the one stored. The server.js:131-140 loop gives the same result through `LegacyRoutes.SaveArticles`. |
| ScraperService.Present | services/scraperService.js:81 | `!href` holds, and the anchor is dropped, both for a missing attribute and for an empty one. |
| ScraperService.Persist | services/scraperService.js:90-93 | `total` is the batch size and equals `newCount + duplicateCount`. An empty batch gives `{0,0,0}` with the store unchanged. Stored records are untouched. `newCount` counts the batch's unseen links. |
| ScraperService.PersistTwice | services/scraperService.js:90-93 | Running a pipeline twice on one batch: the second run adds nothing and reports `{0, N, N}`. |
| ScraperService.PersistAllNew | services/scraperService.js:90-93 | A batch of distinct links, none of them stored, gives `{N, 0, N}`. |
| ScraperService.ForumPostLink | services/scraperService.js:62 | Strategy 1 matches exactly the anchors that have an href in which both "?com=view_post" and "forum=1014" occur at some index. |
| ScraperService.ThreadLink | services/scraperService.js:69-72 | Strategy 3 matches exactly the anchors that have an href in which "?com=view_post", "?com=discuss" or "?com=thread" occurs. An anchor without an href, read as `''`, never matches. |
| ScraperService.SelectLeft | services/scraperService.js:61-73 | Strategy 1 wins when it matches anything. Strategy 2 is used only when strategy 1 is empty. Strategy 3 is used only when both are empty. The result is empty exactly when all three are. |
| ScraperService.ForumPostsSelected | services/scraperService.js:62-64 | A non-empty page whose anchors all match strategy 1 is walked exactly as given. |
| ScraperService.Denied | services/scraperService.js:81 | A title is denied exactly when "view all" occurs at some index of its lower-cased form. |
| ScraperService.CaseVariantDenied | services/scraperService.js:81 | Any upper-, lower- or mixed-case spelling of "view all" occurring anywhere in a title gets the title rejected. |
| ScraperService.LeftTime | services/scraperService.js:85 | The trimmed `td.time` text when it is non-empty, else the trimmed fourth-cell text. The result is always trimmed. |
| ScraperService.BuildLeft | services/scraperService.js:78-87 | An anchor is kept exactly when its href is present and non-empty, its trimmed text is non-empty, and it has no "view all". A kept anchor gives a trimmed title, the resolved link (absolute), the row's time, and the flags `left=true, right=false` with source "Democratic Underground". |
| ScraperService.LeftBatch | services/scraperService.js:77-88 | Every left record has only the left flag set. Its title is non-empty, trimmed and free of the deny phrase. Its link is absolute. |
| ScraperService.ScrapeLeft | services/scraperService.js:52-94 | A failed fetch propagates and nothing is written. Otherwise the left batch is persisted and summarised. |
| ScraperService.TwoLeftEntriesSummary | __tests__/services/scraperService.test.js:25-53 | Two forum-post anchors that the builder keeps, with distinct links and neither stored, give `{2, 0, 2}`. |
| ScraperService.EmptyPagesSummary | __tests__/services/scraperService.test.js:91-102 | An empty page gives `{0,0,0}` with no store call, for every source. |
| ScraperService.BasesAbsolute | services/scraperService.js:58-135 | The three link bases (the left one on line 58, the right one on line 106, the center one on line 135) start with "http". |
| ScraperService.BuildRight | services/scraperService.js:109-117 | An item is kept exactly when its trimmed title is non-empty and its href is present. A kept item's link is the base followed by the href. Its title and date are trimmed. Its flags are `left=false, right=true`. |
| ScraperService.RightBatch | services/scraperService.js:109-117 | Every right record has only the right flag set, a non-empty title, and a link that starts with the base. |
| ScraperService.RightPrefixesAbsoluteHref | services/scraperService.js:116 | An item whose href already starts with "http" is kept, but its link is not that href: the right source never resolves absolute hrefs. |
| ScraperService.ScrapeRight | services/scraperService.js:100-123 | A failed fetch propagates. Otherwise the right batch is persisted and summarised. |
| ScraperService.CenterTitle | services/scraperService.js:141-142 | The trimmed headline text when it is non-empty, else the trimmed anchor text. |
| ScraperService.CenterCandidate | services/scraperService.js:144-150 | A card passes exactly when its href is present and its title has at least 10 characters. It gives the resolved link, an empty time, both flags false and source "BBC". |
| ScraperService.CenterFrom | services/scraperService.js:137-151 | The loop with the `seen` set: no record has a link in `seen`, no two records share a link, and every record is center-shaped. Which card each record comes from is stated by `ScraperService.CenterFromFirstWins`. |
| ScraperService.CenterFromFirstWins | services/scraperService.js:146-150 | Each record of the center loop is the candidate of the first card carrying its link: no earlier card is a candidate for that link, whatever `seen` held at the start. |
| ScraperService.DedupFirstWins | services/scraperService.js:147-150 | The `seen`-set loop keeps, for each record, the entry of the first position holding its link. |
| ScraperService.CenterFromLinks | services/scraperService.js:146-148 | The batch's links are exactly the candidates' links minus those already seen. |
| ScraperService.CenterBatch | services/scraperService.js:137-153 | The center batch has pairwise-distinct links, one per distinct candidate link, so its size is the number of distinct candidate links. Which card each record comes from is stated by `ScraperService.CenterBatchFirstWins` and `ScraperService.CenterFromFirstWins`. |
| ScraperService.CenterBatchFirstWins | services/scraperService.js:137-151 | The record of the first card carrying a link is in the center batch, so a later card with the same link never displaces it. |
| ScraperService.DistinctLinksCard | services/scraperService.js:147-148 | A batch with pairwise-distinct links has as many links as records. |
| ScraperService.CenterSkipsRejected | services/scraperService.js:144 | A rejected card followed by an accepted one yields just the accepted record. |
| ScraperService.RelativeCardKept | services/scraperService.js:144-150 | A card with an href that does not start with "http" and a title of at least 10 characters becomes `{title, base + href, "", false, false, "BBC"}`. |
| ScraperService.ShortTitleDropped | __tests__/services/scraperService.test.js:132-153 | "Short" is dropped and the full BBC headline is kept: a batch of one. |
| ScraperService.ScrapeCenter | services/scraperService.js:129-159 | A failed fetch propagates. Otherwise the center batch is persisted and summarised. |
| Articles.ResolveLink | services/scraperService.js:83 | The result always ends with the href. An href starting with "http" is kept as is. Any other href is appended to the base. |
| Articles.ResolveLinkAbsolute | services/scraperService.js:146 | With an absolute base, every resolved link starts with "http". |
| Articles.ResolveLinkIdempotent | services/scraperService.js:83 | With an absolute base, resolving a resolved link again changes nothing. |
| Text.IsSpace | services/scraperService.js:79 | In ASCII, exactly space and tab through carriage return count as white space. Every white-space character is a single UTF-16 code unit and is not an upper-case letter. |
| Text.StartsWith | services/scraperService.js:83 | `startsWith` holds exactly when the prefix fits and agrees with the string character by character from index 0. |
| Text.Trim | services/scraperService.js:79 | The result is no longer than the input and neither starts nor ends with ECMAScript white space. |
| Text.TrimFactor | services/scraperService.js:79 | `trim` keeps a contiguous factor of its input and drops only white space on both sides. |
| Text.TrimEmptyIff | services/scraperService.js:81 | A string trims to "" exactly when it is all white space, so `!title` rejects whitespace-only titles. |
| Text.TrimIdempotent | services/scraperService.js:79 | Trimming twice is trimming once. |
| Text.TrimStartDrops | services/scraperService.js:79 | Leading trimming drops only white space. |
| Text.TrimEndDrops | services/scraperService.js:79 | Trailing trimming drops only white space. |
| Text.ContainsIff | services/scraperService.js:71 | The left-to-right `includes` scan holds exactly when the substring occurs at some index. |
| Text.ToLower | services/scraperService.js:81 | Same length, with no upper-case ASCII letter left. Each upper-case letter becomes the letter 32 code points above it, and every other character is unchanged. |
| Text.ToLowerIdempotent | services/scraperService.js:81 | Lower-casing an already lower-cased title changes nothing. |
| Seqs.Filter | services/scraperService.js:69-72 | The kept elements are exactly the input elements passing the test. |
| Seqs.FilterAppend | services/scraperService.js:69-72 | Filtering distributes over concatenation, so document order is kept. |
| Seqs.FilterAll | services/scraperService.js:62 | A filter every element passes returns its input. |
| Seqs.Collect | services/scraperService.js:77-88 | A record is in the batch exactly when some element's guard produced it. |
| Seqs.CollectAppend | server.js:113-131 | Collecting distributes over concatenation, so records keep selector order. |
| LegacyRoutes.LegacyLeftArticle | server.js:113-128 | A cell is kept exactly when its untrimmed child text is non-empty, because the link guard never fails. The link is the base followed by the href text, with no absolute check. The flags are `left=true, right=false`. |
| LegacyRoutes.LegacyRightArticle | server.js:162-177 | An item is kept exactly when its untrimmed heading text is non-empty. The link is the base followed by the href text. The flags are `left=false, right=true`. |
| LegacyRoutes.LegacyLeftBatch | server.js:113-128 | Every left-route record has only the left flag set, a non-empty title, and a link that starts with the base. |
| LegacyRoutes.LegacyRightBatch | server.js:162-177 | Every right-route record has only the right flag set, a non-empty title, and a link that starts with the base. |
| LegacyRoutes.HrefText | server.js:115 | A present href is used as is. A missing one becomes the text "undefined". |
| LegacyRoutes.MissingHrefStillKept | server.js:115-118 | A titled cell without an href is kept, under the link `…democraticunderground.comundefined`. |
| LegacyRoutes.UntrimmedTitleKept | server.js:114-118 | Any non-empty, all-white-space title passes the route's guard. The service rejects the same anchor. |
| LegacyRoutes.EveryBatchBiasExclusive | server.js:123-124 | No record of any batch has both `left` and `right` set, for all three service pipelines and both routes. |
| LegacyRoutes.SaveArticles | server.js:131-140 | The findOne/save loop gives `newCount + duplicateCount` equal to the batch size. It leaves stored records untouched. It ends with the same store and counts as `upsertArticles` on the same batch. |
| LegacyRoutes.ScrapeLeftRoute | server.js:101-148 | A failed fetch aborts before any save. Otherwise the route's batch is saved, with `upsertArticles`'s store and counts. |
| LegacyRoutes.ScrapeRightRoute | server.js:150-197 | A failed fetch aborts before any save. Otherwise the route's batch is saved, with `upsertArticles`'s store and counts. |

## Left out

- HTTP fetching (services/scraperService.js:16-22, server.js:104,153): the client, its 10 s timeout, the 5-redirect cap and the user agent are I/O. A fetch is an input `Result`, and only the abort-on-failure path is modelled.
- HTML parsing and CSS selector evaluation (cheerio) come from a foreign library. Selector matches are inputs. This includes the text of the `td.time` and fourth cells, the headline descendants, and `closest('tr')`.
- MongoDB execution. The model leaves out:
  - `ordered: false` parallel execution and per-document failure;
  - how the driver reports `upsertedCount` (the `|| 0` fallback never fires in the model, because the count is always a number);
  - the absence of a unique index on `link`.

  The store is a sequential `map` keyed by link.
- Overlapping invocations are not modelled. Each pipeline run and each route is one step on the store. In the source, each runs inside an HTTP handler that yields at every `await`. Two overlapping requests can interleave and both find a link absent, and both then store it, since `link` has no unique index (models/Article.js:5-28). This can happen between `findOne` and `save` (server.js:132-135, 181-184) or between two upserting bulk writes (services/scraperService.js:41). The "one record per link" invariant (`Ingest.UpsertKeepsKeying`) and the counts of `LegacyRoutes.SaveArticles` therefore hold only for runs that do not overlap.
- Mongoose schema enforcement (models/Article.js:5-28) is not modelled. The model stores each record exactly as the scraper builds it. Mongoose itself enforces the schema at run time, which has two effects:
  - `bias` is required (models/Article.js:14-23) and neither writer sets it, so `newArticle.save()` in the routes (server.js:134-135) rejects for every new article.
  - Under Mongoose's default strict mode, the paths the schema does not declare (`time`, `left`, `right`, `source`) are not stored by either writer.

  The `note` reference is never written by ingestion.
- Store-call failures are not modelled. Every store call is taken to succeed:
  - A rejected `Article.bulkWrite` (services/scraperService.js:41) makes the pipeline reject. `ScraperService.Persist`, `ScrapeLeft`, `ScrapeRight` and `ScrapeCenter` have no failure outcome for it.
  - A rejected `findOne` or `save` (server.js:132-135, 181-184) ends the route with a `500` and keeps the saves made before it. `LegacyRoutes.SaveArticles` and the two route methods have no such partial outcome.
- Express wiring is plumbing and is not modelled: redirects, `500` responses, console and logger output, the center-route stub (server.js:199-209), the note CRUD routes and controllers, public/js/app.js, and configuration defaults.
- Text.ToLower: lower-cases ASCII letters only, not the full Unicode case mapping of `toLowerCase`, because Dafny has no Unicode case tables. The "view all" phrase is ASCII, so the denylist decision differs only for titles whose non-ASCII letters lower-case into it.
- ScraperService.CenterCandidate: measures title length in Unicode scalar values. JavaScript's `length` counts UTF-16 code units, so a title with characters outside the Basic Multilingual Plane may pass the length-10 check in the source while the model drops it.
