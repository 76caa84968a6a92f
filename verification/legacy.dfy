/** The older scrape routes of the Express server, `/scrape/left` and
    `/scrape/right`: they build articles without trimming or link
    resolution and store them one at a time, looking each link up first. */
module LegacyRoutes {
  import opened Wrappers
  import opened Text
  import opened Seqs
  import opened Articles
  import opened Ingest
  import opened ScraperService

  /** What JavaScript's `+` appends for an attribute value: the value, or
      the word "undefined" when the attribute is missing. */
  function HrefText(href: Option<string>): (t: string)
    ensures href.Some? ==> t == href.value
    ensures href.None? ==> t == "undefined"
  {
    href.GetOr("undefined")
  }

  /** A `td.title` cell: the text and first `href` of its children, and the
      text of its third following sibling. */
  datatype TitleCell = TitleCell(childText: string, childHref: Option<string>, timeText: string)

  /** One `td.title` cell of the left page. The link is the base followed by
      the href, with no absolute-URL check; the keep guard `title && link`
      only ever tests the untrimmed title, since the link is never empty. */
  function LegacyLeftArticle(cell: TitleCell): (r: Option<Article>)
    ensures r.Some? <==> cell.childText != ""
    ensures r.Some? ==> && r.value.title == cell.childText
                        && StartsWith(r.value.link, LeftBase)
                        && r.value.link[|LeftBase|..] == HrefText(cell.childHref)
                        && r.value.time == cell.timeText
                        && r.value == r.value.(left := true, right := false, source := LeftName)
  {
    var link := LeftBase + HrefText(cell.childHref);
    if cell.childText != "" && link != "" then
      Some(Article(cell.childText, link, cell.timeText, true, false, LeftName))
    else None
  }

  /** One `li.article` item of the right page, built the same way. */
  function LegacyRightArticle(item: ArticleItem): (r: Option<Article>)
    ensures r.Some? <==> item.headingText != ""
    ensures r.Some? ==> && r.value.title == item.headingText
                        && StartsWith(r.value.link, RightBase)
                        && r.value.link[|RightBase|..] == HrefText(item.href)
                        && r.value.time == item.dateText
                        && r.value == r.value.(left := false, right := true, source := RightName)
  {
    var link := RightBase + HrefText(item.href);
    if item.headingText != "" && link != "" then
      Some(Article(item.headingText, link, item.dateText, false, true, RightName))
    else None
  }

  /** The articles of the left route, in selector order. */
  function LegacyLeftBatch(cells: seq<TitleCell>): (batch: seq<Article>)
    ensures |batch| <= |cells|
    ensures forall x :: x in batch ==> x.left && !x.right && x.title != "" && StartsWith(x.link, LeftBase)
  {
    Collect(cells, LegacyLeftArticle)
  }

  /** The articles of the right route, in selector order. */
  function LegacyRightBatch(items: seq<ArticleItem>): (batch: seq<Article>)
    ensures |batch| <= |items|
    ensures forall x :: x in batch ==> !x.left && x.right && x.title != "" && StartsWith(x.link, RightBase)
  {
    Collect(items, LegacyRightArticle)
  }

  /** A titled cell without an href is still kept, under the link
      "https://www.democraticunderground.comundefined". */
  lemma MissingHrefStillKept(cell: TitleCell)
    requires cell.childText != "" && cell.childHref.None?
    ensures LegacyLeftArticle(cell).Some?
    ensures LegacyLeftArticle(cell).value.link == LeftBase + "undefined"
  {
  }

  /** A whitespace-only title passes the route's guard although the scraper
      service rejects the same anchor. */
  lemma UntrimmedTitleKept(title: string, href: string)
    requires title != "" && AllSpace(title) && href != ""
    ensures LegacyLeftArticle(TitleCell(title, Some(href), "")).Some?
    ensures BuildLeft(Anchor(Some(href), title, "", "")).None?
  {
    TrimEmptyIff(title);
  }

  /** The save loop of both routes: visit the articles in order, look each
      link up, save and count it as new when absent, count it as a
      duplicate otherwise. It leaves the same store and reports the same
      counts as `upsertArticles` on the same batch. */
  method SaveArticles(store: Store, articles: seq<Article>) returns (saved: Store, newCount: nat, duplicateCount: nat)
    ensures newCount + duplicateCount == |articles|
    ensures forall k :: k in store ==> k in saved && saved[k] == store[k]
    ensures var u := UpsertArticles(store, articles);
            saved == u.store && newCount == u.counts.newCount && duplicateCount == u.counts.duplicateCount
  {
    saved := store;
    newCount := 0;
    duplicateCount := 0;
    ghost var final := BulkWrite(store, OpsFor(articles));
    for i := 0 to |articles|
      invariant newCount + duplicateCount == i
      invariant BulkWrite(saved, OpsFor(articles[i..])).store == final.store
      invariant newCount + BulkWrite(saved, OpsFor(articles[i..])).upsertedCount == final.upsertedCount
    {
      var a := articles[i];
      BulkWriteFirstStep(saved, articles[i..]);
      assert articles[i..][1..] == articles[i + 1..];
      if a.link !in saved {
        saved := saved[a.link := a];
        newCount := newCount + 1;
      } else {
        duplicateCount := duplicateCount + 1;
      }
    }
    assert articles[|articles|..] == [];
    assert saved == final.store && newCount == final.upsertedCount;
  }

  /** Writing a batch is inserting its first article if its link is new,
      then writing the rest. */
  lemma BulkWriteFirstStep(store: Store, articles: seq<Article>)
    requires articles != []
    ensures var a := articles[0];
            var step := if a.link in store then WriteResult(store, 0) else WriteResult(store[a.link := a], 1);
            var rest := BulkWrite(step.store, OpsFor(articles[1..]));
            BulkWrite(store, OpsFor(articles)) == WriteResult(rest.store, step.upsertedCount + rest.upsertedCount)
  {
    OpsForTail(articles);
  }

  /** No writer ever sets both bias flags: every record of every batch,
      from the scraper service and from the routes, has at most one. */
  lemma EveryBatchBiasExclusive(page: LeftPage, items: seq<ArticleItem>, cards: seq<CardLink>, cells: seq<TitleCell>)
    ensures forall x :: x in LeftBatch(page) ==> BiasExclusive(x)
    ensures forall x :: x in RightBatch(items) ==> BiasExclusive(x)
    ensures forall x :: x in CenterBatch(cards) ==> BiasExclusive(x)
    ensures forall x :: x in LegacyLeftBatch(cells) ==> BiasExclusive(x)
    ensures forall x :: x in LegacyRightBatch(items) ==> BiasExclusive(x)
  {
    var center := CenterBatch(cards);
    assert center == CenterFrom(cards, {});
    forall x | x in center
      ensures BiasExclusive(x)
    {
      var i :| 0 <= i < |center| && center[i] == x;
      assert CenterShaped(center[i]);
    }
  }

  /** What a route leaves behind: the store and the two counts it logs. */
  datatype RouteOutcome = RouteOutcome(store: Store, newCount: nat, duplicateCount: nat)

  /** `/scrape/left`: a failed fetch aborts before any save; otherwise the
      route's batch is saved one article at a time. */
  method ScrapeLeftRoute(store: Store, fetched: Result<seq<TitleCell>, FetchError>) returns (r: Result<RouteOutcome, FetchError>)
    ensures fetched.Failure? ==> r == Failure(fetched.error)
    ensures fetched.Success? ==>
      var u := UpsertArticles(store, LegacyLeftBatch(fetched.value));
      r == Success(RouteOutcome(u.store, u.counts.newCount, u.counts.duplicateCount))
  {
    if fetched.Failure? {
      return Failure(fetched.error);
    }
    var batch := LegacyLeftBatch(fetched.value);
    var saved, newCount, duplicateCount := SaveArticles(store, batch);
    r := Success(RouteOutcome(saved, newCount, duplicateCount));
  }

  /** `/scrape/right`. */
  method ScrapeRightRoute(store: Store, fetched: Result<seq<ArticleItem>, FetchError>) returns (r: Result<RouteOutcome, FetchError>)
    ensures fetched.Failure? ==> r == Failure(fetched.error)
    ensures fetched.Success? ==>
      var u := UpsertArticles(store, LegacyRightBatch(fetched.value));
      r == Success(RouteOutcome(u.store, u.counts.newCount, u.counts.duplicateCount))
  {
    if fetched.Failure? {
      return Failure(fetched.error);
    }
    var batch := LegacyRightBatch(fetched.value);
    var saved, newCount, duplicateCount := SaveArticles(store, batch);
    r := Success(RouteOutcome(saved, newCount, duplicateCount));
  }
}
