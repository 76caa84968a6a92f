/** The persisted Article record, the link-keyed store that holds it, and
    the link-resolution rule the scrapers share. */
module Articles {
  import opened Text

  /** One scraped headline as written to the `articles` collection. The
      `note` reference is never written by ingestion and is not modelled. */
  datatype Article = Article(
    title: string,
    link: string,
    time: string,
    left: bool,
    right: bool,
    source: string)

  /** The collection, indexed by the `link` field ingestion filters on. */
  type Store = map<string, Article>

  /** Every record is filed under its own link, so no two records share one. */
  predicate WellKeyed(store: Store) {
    forall k :: k in store ==> store[k].link == k
  }

  /** At most one of the two bias flags is set. */
  predicate BiasExclusive(a: Article) {
    !(a.left && a.right)
  }

  /** The links of a batch. */
  function LinkSet(articles: seq<Article>): set<string> {
    set a | a in articles :: a.link
  }

  /** The links of a two-article batch. */
  lemma LinkSetPair(x: Article, y: Article)
    ensures LinkSet([x, y]) == {x.link, y.link}
  {
    assert x in [x, y] && y in [x, y];
  }

  /** No two articles of the batch share a link. */
  predicate DistinctLinks(articles: seq<Article>) {
    forall i, j :: 0 <= i < j < |articles| ==> articles[i].link != articles[j].link
  }

  /** The scheme prefix `href.startsWith('http')` tests for. */
  const Scheme: string := "http"

  /** `href.startsWith('http') ? href : linkStart + href`: an href that
      already names a scheme is kept, anything else is appended to the base. */
  function ResolveLink(base: string, href: string): (link: string)
    ensures EndsWith(link, href)
    ensures StartsWith(href, Scheme) ==> link == href
    ensures !StartsWith(href, Scheme) ==> StartsWith(link, base) && |link| == |base| + |href|
  {
    if StartsWith(href, Scheme) then href else base + href
  }

  /** With an absolute base, every resolved link is absolute. */
  lemma ResolveLinkAbsolute(base: string, href: string)
    requires StartsWith(base, Scheme)
    ensures StartsWith(ResolveLink(base, href), Scheme)
  {
    if !StartsWith(href, Scheme) {
      assert (base + href)[..|Scheme|] == base[..|Scheme|];
    }
  }

  /** Resolving a resolved link again changes nothing. */
  lemma ResolveLinkIdempotent(base: string, href: string)
    requires StartsWith(base, Scheme)
    ensures ResolveLink(base, ResolveLink(base, href)) == ResolveLink(base, href)
  {
    ResolveLinkAbsolute(base, href);
  }
}
