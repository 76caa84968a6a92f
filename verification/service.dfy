/** The three source pipelines of the scraper service: select the raw
    entries a page offers, normalise them into Article records, and persist
    the batch with `upsertArticles`. Fetching and HTML parsing happen
    outside: a pipeline receives the fetch outcome and, on success, the
    entries its selectors matched, in document order. */
module ScraperService {
  import opened Wrappers
  import opened Text
  import opened Seqs
  import opened Articles
  import opened Ingest

  /** A failed GET (network error, timeout, redirect cap, HTTP status). */
  datatype FetchError = FetchError(cause: string)

  /** `{ newCount, duplicateCount, total }` returned by every pipeline. */
  datatype Summary = Summary(newCount: nat, duplicateCount: nat, total: nat)

  /** A finished run: the store afterwards, the summary, and the bulk write
      issued (`None` when the batch was empty). */
  datatype Scraped = Scraped(store: Store, summary: Summary, call: Option<seq<UpdateOp>>)

  /** JavaScript truthiness of an attribute value: `!href` holds both of a
      missing attribute and of an empty one. */
  function Present(href: Option<string>): (b: bool)
    ensures !b <==> href == None || href == Some("")
  {
    href.Some? && href.value != ""
  }

  /** Persist a normalised batch and report `{ ...counts, total }`: `total` is
      the batch size, the two counts add up to it, records already stored
      are untouched and the batch's links are stored afterwards. */
  function Persist(store: Store, batch: seq<Article>): (r: Scraped)
    ensures r.summary.total == |batch|
    ensures r.summary.newCount + r.summary.duplicateCount == r.summary.total
    ensures batch == [] ==> r == Scraped(store, Summary(0, 0, 0), None)
    ensures forall k :: k in store ==> k in r.store && r.store[k] == store[k]
    ensures r.store.Keys == store.Keys + LinkSet(batch)
    ensures r.summary.newCount == |LinkSet(batch) - store.Keys|
  {
    var u := UpsertArticles(store, batch);
    NewCountIsFreshLinks(store, batch);
    Scraped(u.store, Summary(u.counts.newCount, u.counts.duplicateCount, |batch|), u.call)
  }

  // ----------------------------------------------------------------------
  // Left: Democratic Underground

  const LeftBase: string := "https://www.democraticunderground.com"
  const LeftName: string := "Democratic Underground"
  /** The navigation phrase the left source rejects, in lower case. */
  const DenyPhrase: string := "view all"

  /** An `<a>` element of the left page: its `href`, its text, and the text
      of the `td.time` cell and of the fourth cell of its enclosing row
      ("" where there is no such cell). */
  datatype Anchor = Anchor(href: Option<string>, text: string, timeCell: string, fourthCell: string)

  /** The left page as its selectors see it: every `<a>` in document order,
      and the anchors inside `td.subject` or `td.title` cells. */
  datatype LeftPage = LeftPage(anchors: seq<Anchor>, cellAnchors: seq<Anchor>)

  /** The href fragments the left strategies look for. */
  const ViewPostMarker: string := "?com=view_post"
  const ForumMarker: string := "forum=1014"
  const DiscussMarker: string := "?com=discuss"
  const ThreadMarker: string := "?com=thread"

  /** Strategy 1, `a[href*='?com=view_post'][href*='forum=1014']`: the anchor
      has an href in which both fragments occur somewhere. */
  function ForumPostLink(a: Anchor): (b: bool)
    ensures b <==> && a.href.Some?
                   && (exists i :: OccursAt(a.href.value, ViewPostMarker, i))
                   && (exists i :: OccursAt(a.href.value, ForumMarker, i))
  {
    if a.href.None? then false
    else
      ContainsIff(a.href.value, ViewPostMarker);
      ContainsIff(a.href.value, ForumMarker);
      Contains(a.href.value, ViewPostMarker) && Contains(a.href.value, ForumMarker)
  }

  /** Strategy 3, every `<a>` whose `href || ''` names a post, discussion or
      thread: one of the three fragments occurs in the href, and an anchor
      without an href never matches. */
  function ThreadLink(a: Anchor): (b: bool)
    ensures b <==> && a.href.Some?
                   && (|| (exists i :: OccursAt(a.href.value, ViewPostMarker, i))
                       || (exists i :: OccursAt(a.href.value, DiscussMarker, i))
                       || (exists i :: OccursAt(a.href.value, ThreadMarker, i)))
  {
    var h := a.href.GetOr("");
    ContainsIff(h, ViewPostMarker);
    ContainsIff(h, DiscussMarker);
    ContainsIff(h, ThreadMarker);
    Contains(h, ViewPostMarker) || Contains(h, DiscussMarker) || Contains(h, ThreadMarker)
  }

  /** The anchors the left pipeline walks: the first strategy that matches
      anything wins, and strategies are never merged. */
  function SelectLeft(page: LeftPage): (r: seq<Anchor>)
    ensures var s1 := Filter(page.anchors, ForumPostLink);
            var s3 := Filter(page.anchors, ThreadLink);
            && (s1 != [] ==> r == s1)
            && (s1 == [] && page.cellAnchors != [] ==> r == page.cellAnchors)
            && (s1 == [] && page.cellAnchors == [] ==> r == s3)
    ensures r == [] <==> && (forall a :: a in page.anchors ==> !ForumPostLink(a))
                         && page.cellAnchors == []
                         && (forall a :: a in page.anchors ==> !ThreadLink(a))
  {
    var s1 := Filter(page.anchors, ForumPostLink);
    assert forall a :: a in page.anchors && ForumPostLink(a) ==> a in s1;
    if s1 != [] then assert s1[0] in s1; s1
    else if page.cellAnchors != [] then page.cellAnchors
    else
      var s3 := Filter(page.anchors, ThreadLink);
      assert forall a :: a in page.anchors && ThreadLink(a) ==> a in s3;
      assert s3 != [] ==> s3[0] in s3;
      s3
  }

  /** The three link bases are absolute URLs. */
  lemma BasesAbsolute()
    ensures StartsWith(LeftBase, Scheme) && StartsWith(RightBase, Scheme) && StartsWith(CenterBase, Scheme)
  {
    assert LeftBase[0] == 'h' && LeftBase[1] == 't' && LeftBase[2] == 't' && LeftBase[3] == 'p';
    assert LeftBase[..4] == Scheme;
    assert RightBase[0] == 'h' && RightBase[1] == 't' && RightBase[2] == 't' && RightBase[3] == 'p';
    assert RightBase[..4] == Scheme;
    assert CenterBase[0] == 'h' && CenterBase[1] == 't' && CenterBase[2] == 't' && CenterBase[3] == 'p';
    assert CenterBase[..4] == Scheme;
  }

  /** Every left link resolves to an absolute URL. */
  lemma LeftLinkAbsolute(href: string)
    ensures StartsWith(ResolveLink(LeftBase, href), Scheme)
  {
    BasesAbsolute();
    ResolveLinkAbsolute(LeftBase, href);
  }

  /** `title.toLowerCase().includes('view all')`: the phrase occurs
      somewhere in the lower-cased title. */
  function Denied(title: string): (b: bool)
    ensures b <==> exists i :: OccursAt(ToLower(title), DenyPhrase, i)
  {
    ContainsIff(ToLower(title), DenyPhrase);
    Contains(ToLower(title), DenyPhrase)
  }

  /** Any spelling of "view all" in upper, lower or mixed case inside a
      title gets the title rejected. */
  lemma CaseVariantDenied(title: string, p: string, i: int)
    requires |p| == |DenyPhrase| && ToLower(p) == DenyPhrase && OccursAt(title, p, i)
    ensures Denied(title)
  {
    var lower := ToLower(title);
    assert lower[i..i + |p|] == ToLower(p) by {
      forall k | 0 <= k < |p|
        ensures lower[i..i + |p|][k] == ToLower(p)[k]
      {
        assert title[i + k] == p[k];
      }
    }
    assert OccursAt(lower, DenyPhrase, i);
  }

  /** `row.find('td.time').text().trim() || row.find('td:nth-child(4)').text().trim() || ''` */
  function LeftTime(a: Anchor): (t: string)
    ensures Trim(a.timeCell) != "" ==> t == Trim(a.timeCell)
    ensures Trim(a.timeCell) == "" ==> t == Trim(a.fourthCell)
    ensures Trim(t) == t
  {
    TrimIdempotent(a.timeCell);
    TrimIdempotent(a.fourthCell);
    var t := Trim(a.timeCell);
    if t != "" then t else Trim(a.fourthCell)
  }

  /** One anchor of the left page. It is dropped when its href is missing,
      its trimmed text is empty or contains "view all" in any letter case;
      otherwise it becomes a left-flagged article whose link is absolute. */
  function BuildLeft(a: Anchor): (r: Option<Article>)
    ensures r.Some? <==> Present(a.href) && Trim(a.text) != "" && !Denied(Trim(a.text))
    ensures r.Some? ==> && r.value.title == Trim(a.text)
                        && r.value.link == ResolveLink(LeftBase, a.href.value)
                        && r.value.time == LeftTime(a)
                        && r.value == r.value.(left := true, right := false, source := LeftName)
                        && StartsWith(r.value.link, Scheme)
                        && Trim(r.value.title) == r.value.title
  {
    var title := Trim(a.text);
    if !Present(a.href) || title == "" || Denied(title) then None
    else
      assert Trim(title) == title by {
        TrimIdempotent(a.text);
      }
      LeftLinkAbsolute(a.href.value);
      Some(Article(title, ResolveLink(LeftBase, a.href.value), LeftTime(a), true, false, LeftName))
  }

  /** The normalised left batch: in selection order, every record carries
      the left flags only, a trimmed non-empty title free of the deny
      phrase, and an absolute link. */
  function LeftBatch(page: LeftPage): (batch: seq<Article>)
    ensures |batch| <= |SelectLeft(page)|
    ensures forall x :: x in batch ==>
      && x.left && !x.right && x.source == LeftName
      && x.title != "" && Trim(x.title) == x.title && !Denied(x.title)
      && StartsWith(x.link, Scheme)
  {
    Collect(SelectLeft(page), BuildLeft)
  }

  /** `scrapeLeftArticles`: a failed fetch is reported and nothing is
      written; otherwise the left batch is persisted and summarised. */
  function ScrapeLeft(store: Store, fetched: Result<LeftPage, FetchError>): (r: Result<Scraped, FetchError>)
    ensures fetched.Failure? ==> r == Failure(fetched.error)
    ensures fetched.Success? ==> r.Success? && r.value == Persist(store, LeftBatch(fetched.value))
  {
    var page :- fetched;
    Success(Persist(store, LeftBatch(page)))
  }

  // ----------------------------------------------------------------------
  // Right: Free Republic

  const RightBase: string := "http://www.freerepublic.com/"
  const RightName: string := "Free Republic"

  /** An `li.article` element: the `href` and text of the children of its
      `h3`, and the text of its `.date` element. */
  datatype ArticleItem = ArticleItem(href: Option<string>, headingText: string, dateText: string)

  /** One list item of the right page. It is dropped when its trimmed title
      is empty or its href is missing; otherwise it becomes a right-flagged
      article whose link is the base followed by the href, even when the
      href is already absolute. */
  function BuildRight(item: ArticleItem): (r: Option<Article>)
    ensures r.Some? <==> Trim(item.headingText) != "" && Present(item.href)
    ensures r.Some? ==> && r.value.title == Trim(item.headingText)
                        && StartsWith(r.value.link, RightBase)
                        && EndsWith(r.value.link, item.href.value)
                        && |r.value.link| == |RightBase| + |item.href.value|
                        && r.value.time == Trim(item.dateText)
                        && r.value == r.value.(left := false, right := true, source := RightName)
  {
    var title := Trim(item.headingText);
    if title == "" || !Present(item.href) then None
    else Some(Article(title, RightBase + item.href.value, Trim(item.dateText), false, true, RightName))
  }

  /** The normalised right batch, in document order. */
  function RightBatch(items: seq<ArticleItem>): (batch: seq<Article>)
    ensures |batch| <= |items|
    ensures forall x :: x in batch ==> !x.left && x.right && x.source == RightName && x.title != "" && StartsWith(x.link, RightBase)
  {
    Collect(items, BuildRight)
  }

  /** An href that is already absolute still gets the base prepended. */
  lemma RightPrefixesAbsoluteHref(item: ArticleItem)
    requires Trim(item.headingText) != "" && Present(item.href)
    requires StartsWith(item.href.value, Scheme)
    ensures BuildRight(item).Some? && BuildRight(item).value.link != ResolveLink(RightBase, item.href.value)
  {
  }

  /** `scrapeRightArticles`. */
  function ScrapeRight(store: Store, fetched: Result<seq<ArticleItem>, FetchError>): (r: Result<Scraped, FetchError>)
    ensures fetched.Failure? ==> r == Failure(fetched.error)
    ensures fetched.Success? ==> r.Success? && r.value == Persist(store, RightBatch(fetched.value))
  {
    var items :- fetched;
    Success(Persist(store, RightBatch(items)))
  }

  // ----------------------------------------------------------------------
  // Center: BBC

  const CenterBase: string := "https://www.bbc.com"
  const CenterName: string := "BBC"
  /** Titles shorter than this are navigation or teaser fragments. */
  const MinTitleLength: nat := 10

  /** An `a[data-testid="internal-link"]` element: its `href`, the text of
      its `h2`, `h3` or card-headline descendants, and its own text. */
  datatype CardLink = CardLink(href: Option<string>, headlineText: string, text: string)

  /** The headline text when it trims to something, else the anchor text. */
  function CenterTitle(c: CardLink): (t: string)
    ensures Trim(c.headlineText) != "" ==> t == Trim(c.headlineText)
    ensures Trim(c.headlineText) == "" ==> t == Trim(c.text)
  {
    var h := Trim(c.headlineText);
    if h != "" then h else Trim(c.text)
  }

  /** A card that passes the href and title-length checks, before the
      within-batch link check. */
  function CenterCandidate(c: CardLink): (r: Option<Article>)
    ensures r.Some? <==> Present(c.href) && |CenterTitle(c)| >= MinTitleLength
    ensures r.Some? ==> && r.value.title == CenterTitle(c)
                        && r.value.link == ResolveLink(CenterBase, c.href.value)
                        && r.value == r.value.(time := "", left := false, right := false, source := CenterName)
  {
    var title := CenterTitle(c);
    if !Present(c.href) || title == "" || |title| < MinTitleLength then None
    else Some(Article(title, ResolveLink(CenterBase, c.href.value), "", false, false, CenterName))
  }

  /** The links of every candidate among `cards`. */
  function CandidateLinks(cards: seq<CardLink>): set<string>
    decreases |cards|
  {
    if cards == [] then {}
    else
      var c := CenterCandidate(cards[0]);
      (if c.Some? then {c.value.link} else {}) + CandidateLinks(cards[1..])
  }

  /** What a center record looks like. */
  predicate CenterShaped(a: Article) {
    |a.title| >= MinTitleLength && a.time == "" && !a.left && !a.right && a.source == CenterName
  }

  /** The `.each` loop over the cards with the `seen` set of links already
      pushed: the batch holds one record per candidate link not in `seen`,
      no two records share a link, and each is center-shaped. */
  function CenterFrom(cards: seq<CardLink>, seen: set<string>): (batch: seq<Article>)
    ensures forall i :: 0 <= i < |batch| ==> batch[i].link !in seen && CenterShaped(batch[i])
    ensures DistinctLinks(batch)
    decreases |cards|
  {
    if cards == [] then []
    else
      match CenterCandidate(cards[0])
      case None => CenterFrom(cards[1..], seen)
      case Some(a) =>
        if a.link in seen then CenterFrom(cards[1..], seen)
        else [a] + CenterFrom(cards[1..], seen + {a.link})
  }

  /** The center loop keeps exactly the candidate links not seen before:
      nothing is lost but repeats, and nothing else is added. */
  lemma {:induction false} CenterFromLinks(cards: seq<CardLink>, seen: set<string>)
    ensures LinkSet(CenterFrom(cards, seen)) == CandidateLinks(cards) - seen
    decreases |cards|
  {
    if cards != [] {
      match CenterCandidate(cards[0])
      case None =>
        CenterFromLinks(cards[1..], seen);
      case Some(a) =>
        if a.link in seen {
          CenterFromLinks(cards[1..], seen);
        } else {
          var rest := CenterFrom(cards[1..], seen + {a.link});
          CenterFromLinks(cards[1..], seen + {a.link});
          assert LinkSet([a] + rest) == {a.link} + LinkSet(rest);
        }
    }
  }

  /** The normalised center batch, starting from an empty `seen` set. */
  function CenterBatch(cards: seq<CardLink>): (batch: seq<Article>)
    ensures DistinctLinks(batch)
    ensures LinkSet(batch) == CandidateLinks(cards)
    ensures |batch| == |CandidateLinks(cards)|
  {
    var batch := CenterFrom(cards, {});
    CenterFromLinks(cards, {});
    DistinctLinksCard(batch);
    batch
  }

  /** The candidate of every card, in card order. */
  function CandidatesOf(cards: seq<CardLink>): (cs: seq<Option<Article>>)
    ensures |cs| == |cards|
    ensures forall k :: 0 <= k < |cards| ==> cs[k] == CenterCandidate(cards[k])
  {
    seq(|cards|, k requires 0 <= k < |cards| => CenterCandidate(cards[k]))
  }

  /** The `seen`-set loop over already-built candidates. */
  function Dedup(cs: seq<Option<Article>>, seen: set<string>): (batch: seq<Article>)
    ensures forall i :: 0 <= i < |batch| ==> batch[i].link !in seen
    decreases |cs|
  {
    if cs == [] then []
    else if cs[0].None? || cs[0].value.link in seen then Dedup(cs[1..], seen)
    else [cs[0].value] + Dedup(cs[1..], seen + {cs[0].value.link})
  }

  /** The center loop is the `seen`-set loop over the cards' candidates. */
  lemma {:induction false} CenterFromIsDedup(cards: seq<CardLink>, seen: set<string>)
    ensures CenterFrom(cards, seen) == Dedup(CandidatesOf(cards), seen)
    decreases |cards|
  {
    if cards != [] {
      var cs := CandidatesOf(cards);
      assert cs[1..] == CandidatesOf(cards[1..]);
      CenterFromIsDedup(cards[1..], seen);
      if cs[0].Some? && cs[0].value.link !in seen {
        CenterFromIsDedup(cards[1..], seen + {cs[0].value.link});
      }
    }
  }

  /** Entry `j` holds a record and no earlier entry holds one with the same
      link. */
  predicate FirstForItsLink(cs: seq<Option<Article>>, j: int)
    requires 0 <= j < |cs|
  {
    && cs[j].Some?
    && forall k :: 0 <= k < j ==> cs[k].None? || cs[k].value.link != cs[j].value.link
  }

  /** Each record the `seen`-set loop keeps comes from the first entry
      carrying its link: later repeats are the ones skipped. */
  lemma {:induction false} DedupFirstWins(cs: seq<Option<Article>>, seen: set<string>, i: int) returns (j: int)
    requires 0 <= i < |Dedup(cs, seen)|
    ensures 0 <= j < |cs| && FirstForItsLink(cs, j) && cs[j] == Some(Dedup(cs, seen)[i])
    decreases |cs|
  {
    var batch := Dedup(cs, seen);
    var tail := cs[1..];
    if cs[0].None? || cs[0].value.link in seen {
      var j' := DedupFirstWins(tail, seen, i);
      assert batch[i].link !in seen;
      j := j' + 1;
      ShiftFirst(cs, j');
    } else if i == 0 {
      j := 0;
    } else {
      var a := cs[0].value;
      var rest := Dedup(tail, seen + {a.link});
      assert batch[i] == rest[i - 1];
      var j' := DedupFirstWins(tail, seen + {a.link}, i - 1);
      assert rest[i - 1].link !in seen + {a.link};
      j := j' + 1;
      ShiftFirst(cs, j');
    }
  }

  /** Being first in the tail, with a different link from the head entry,
      is being first in the whole sequence. */
  lemma ShiftFirst(cs: seq<Option<Article>>, j': int)
    requires 0 <= j' < |cs| - 1 && FirstForItsLink(cs[1..], j')
    requires cs[0].None? || cs[0].value.link != cs[j' + 1].value.link
    ensures FirstForItsLink(cs, j' + 1)
  {
    assert cs[1..][j'] == cs[j' + 1];
    forall k | 1 <= k < j' + 1
      ensures cs[k].None? || cs[k].value.link != cs[j' + 1].value.link
    {
      assert cs[1..][k - 1] == cs[k];
    }
  }

  /** Each record of the center loop is the candidate of the first card
      carrying its link, whatever `seen` held at the start. */
  lemma CenterFromFirstWins(cards: seq<CardLink>, seen: set<string>, i: int) returns (j: int)
    requires 0 <= i < |CenterFrom(cards, seen)|
    ensures 0 <= j < |cards| && CenterCandidate(cards[j]) == Some(CenterFrom(cards, seen)[i])
    ensures forall k :: 0 <= k < j ==>
      CenterCandidate(cards[k]).None? || CenterCandidate(cards[k]).value.link != CenterFrom(cards, seen)[i].link
  {
    CenterFromIsDedup(cards, seen);
    j := DedupFirstWins(CandidatesOf(cards), seen, i);
  }

  /** Every candidate's link is among the candidate links. */
  lemma {:induction false} CandidateLinkListed(cards: seq<CardLink>, j: int)
    requires 0 <= j < |cards| && CenterCandidate(cards[j]).Some?
    ensures CenterCandidate(cards[j]).value.link in CandidateLinks(cards)
    decreases |cards|
  {
    if j > 0 {
      assert cards[1..][j - 1] == cards[j];
      CandidateLinkListed(cards[1..], j - 1);
    }
  }

  /** The center batch keeps, for each link, the record of the first card
      carrying it: that card's record is in the batch. */
  lemma CenterBatchFirstWins(cards: seq<CardLink>, j: int) returns (i: int)
    requires 0 <= j < |cards| && CenterCandidate(cards[j]).Some?
    requires forall k :: 0 <= k < j ==>
      CenterCandidate(cards[k]).None? || CenterCandidate(cards[k]).value.link != CenterCandidate(cards[j]).value.link
    ensures 0 <= i < |CenterBatch(cards)| && CenterBatch(cards)[i] == CenterCandidate(cards[j]).value
  {
    var batch := CenterBatch(cards);
    var c := CenterCandidate(cards[j]).value;
    CandidateLinkListed(cards, j);
    assert c.link in LinkSet(batch);
    var x :| x in batch && x.link == c.link;
    i :| 0 <= i < |batch| && batch[i] == x;
    var j' := CenterFromFirstWins(cards, {}, i);
    assert j' == j;
  }

  /** A batch with pairwise-distinct links has as many links as records. */
  lemma {:induction false} DistinctLinksCard(batch: seq<Article>)
    requires DistinctLinks(batch)
    ensures |LinkSet(batch)| == |batch|
  {
    if batch != [] {
      var tail := batch[1..];
      assert DistinctLinks(tail);
      DistinctLinksCard(tail);
      assert LinkSet(batch) == {batch[0].link} + LinkSet(tail);
      assert batch[0].link !in LinkSet(tail);
    }
  }

  /** `scrapeCenterArticles`. */
  function ScrapeCenter(store: Store, fetched: Result<seq<CardLink>, FetchError>): (r: Result<Scraped, FetchError>)
    ensures fetched.Failure? ==> r == Failure(fetched.error)
    ensures fetched.Success? ==> r.Success? && r.value == Persist(store, CenterBatch(fetched.value))
  {
    var cards :- fetched;
    Success(Persist(store, CenterBatch(cards)))
  }

  // ----------------------------------------------------------------------
  // Properties of the pipelines

  /** Running a pipeline twice on the same batch: the second run adds
      nothing and reports the whole batch as duplicates. */
  lemma PersistTwice(store: Store, batch: seq<Article>)
    ensures var once := Persist(store, batch);
            var twice := Persist(once.store, batch);
            twice.store == once.store && twice.summary == Summary(0, |batch|, |batch|)
  {
    UpsertIdempotent(store, batch);
  }

  /** A batch of distinct links none of which is stored is inserted whole:
      `{ newCount: total, duplicateCount: 0, total }`. */
  lemma PersistAllNew(store: Store, batch: seq<Article>)
    requires DistinctLinks(batch)
    requires forall i :: 0 <= i < |batch| ==> batch[i].link !in store
    ensures Persist(store, batch).summary == Summary(|batch|, 0, |batch|)
  {
    DistinctLinksCard(batch);
    assert LinkSet(batch) - store.Keys == LinkSet(batch);
  }

  /** Two new articles with distinct links give `{2, 0, 2}`. */
  lemma PersistTwoNew(store: Store, x: Article, y: Article)
    requires x.link != y.link && x.link !in store && y.link !in store
    ensures Persist(store, [x, y]).summary == Summary(2, 0, 2)
  {
    PersistAllNew(store, [x, y]);
  }

  /** An empty page yields `{0, 0, 0}` with no store call, for every source. */
  lemma EmptyPagesSummary(store: Store)
    ensures ScrapeLeft(store, Success(LeftPage([], []))) == Success(Scraped(store, Summary(0, 0, 0), None))
    ensures ScrapeRight(store, Success([])) == Success(Scraped(store, Summary(0, 0, 0), None))
    ensures ScrapeCenter(store, Success([])) == Success(Scraped(store, Summary(0, 0, 0), None))
  {
    assert LeftBatch(LeftPage([], [])) == [];
  }

  /** Two kept forum-post anchors with distinct links on a store holding
      neither link give `{ newCount: 2, duplicateCount: 0, total: 2 }`. */
  lemma TwoLeftEntriesSummary(store: Store, a1: Anchor, a2: Anchor)
    requires ForumPostLink(a1) && ForumPostLink(a2)
    requires BuildLeft(a1).Some? && BuildLeft(a2).Some?
    requires BuildLeft(a1).value.link != BuildLeft(a2).value.link
    requires BuildLeft(a1).value.link !in store && BuildLeft(a2).value.link !in store
    ensures var r := ScrapeLeft(store, Success(LeftPage([a1, a2], [a1, a2])));
            r.Success? && r.value.summary == Summary(2, 0, 2)
  {
    var batch := LeftBatchOfTwo(a1, a2);
    PersistTwoNew(store, BuildLeft(a1).value, BuildLeft(a2).value);
  }

  /** Strategy 1 keeps a page whose anchors all match it. */
  lemma ForumPostsSelected(page: LeftPage)
    requires page.anchors != []
    requires forall i :: 0 <= i < |page.anchors| ==> ForumPostLink(page.anchors[i])
    ensures SelectLeft(page) == page.anchors
  {
    FilterAll(page.anchors, ForumPostLink);
  }

  /** Two forum-post anchors are selected as they are. */
  lemma TwoForumPostsSelected(a1: Anchor, a2: Anchor)
    requires ForumPostLink(a1) && ForumPostLink(a2)
    ensures SelectLeft(LeftPage([a1, a2], [a1, a2])) == [a1, a2]
  {
    ForumPostsSelected(LeftPage([a1, a2], [a1, a2]));
  }

  /** The batch of a page whose two anchors both match strategy 1 and both
      pass the filters: the two records, in page order. */
  lemma LeftBatchOfTwo(a1: Anchor, a2: Anchor) returns (batch: seq<Article>)
    requires ForumPostLink(a1) && ForumPostLink(a2)
    requires BuildLeft(a1).Some? && BuildLeft(a2).Some?
    ensures batch == LeftBatch(LeftPage([a1, a2], [a1, a2]))
    ensures batch == [BuildLeft(a1).value, BuildLeft(a2).value]
  {
    var page := LeftPage([a1, a2], [a1, a2]);
    TwoForumPostsSelected(a1, a2);
    CollectPair(a1, a2, BuildLeft);
    batch := LeftBatch(page);
  }

  /** A rejected card followed by an accepted one yields just the latter. */
  lemma CenterSkipsRejected(rejected: CardLink, kept: CardLink)
    requires CenterCandidate(rejected).None? && CenterCandidate(kept).Some?
    ensures CenterBatch([rejected, kept]) == [CenterCandidate(kept).value]
  {
    assert [rejected, kept][1..] == [kept];
    assert CenterFrom([rejected, kept], {}) == CenterFrom([kept], {});
  }

  /** A card titled "Short" is dropped; one with a full headline is kept. */
  lemma ShortTitleDropped(short: CardLink, full: CardLink)
    requires short == CardLink(Some("/news/article-123"), "Short", "Short")
    requires full == CardLink(Some("/news/article-456"), "This is a proper BBC article title", "")
    ensures var batch := CenterBatch([short, full]);
      |batch| == 1 &&
      batch[0] == Article(full.headlineText, CenterBase + "/news/article-456", "", false, false, CenterName)
  {
    ShortCardRejected(short);
    FullCardKept(full);
    CenterSkipsRejected(short, full);
  }

  /** The five-letter title "Short" is below the minimum length. */
  lemma ShortCardRejected(short: CardLink)
    requires short == CardLink(Some("/news/article-123"), "Short", "Short")
    ensures CenterCandidate(short).None?
  {
    TrimKeeps(short.headlineText);
  }

  /** A 34-character headline with a relative href is a candidate. */
  lemma FullCardKept(full: CardLink)
    requires full == CardLink(Some("/news/article-456"), "This is a proper BBC article title", "")
    ensures CenterCandidate(full)
      == Some(Article(full.headlineText, CenterBase + "/news/article-456", "", false, false, CenterName))
  {
    FullTitleTrimmed(full.headlineText);
    RelativeHref(full.href.value);
    assert CenterTitle(full) == full.headlineText;
    RelativeCardKept(full);
  }

  /** The full headline has no white space to trim and 34 characters. */
  lemma FullTitleTrimmed(h: string)
    requires h == "This is a proper BBC article title"
    ensures Trim(h) == h && |h| == 34
  {
    assert h[0] == 'T' && h[33] == 'e';
    TrimKeeps(h);
  }

  /** The test's href is relative. */
  lemma RelativeHref(href: string)
    requires href == "/news/article-456"
    ensures href != "" && !StartsWith(href, Scheme)
  {
    assert href[0] == '/' && Scheme[0] == 'h';
  }

  /** A card with a relative href and a long enough title becomes a record
      under the base-prefixed link. */
  lemma RelativeCardKept(c: CardLink)
    requires Present(c.href) && !StartsWith(c.href.value, Scheme)
    requires |CenterTitle(c)| >= MinTitleLength
    ensures CenterCandidate(c)
      == Some(Article(CenterTitle(c), CenterBase + c.href.value, "", false, false, CenterName))
  {
  }

}
