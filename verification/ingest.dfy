/** `upsertArticles`: one bulk write of `updateOne` operations, each keyed by
    `link` with `$setOnInsert` and `upsert: true`, followed by the count
    bookkeeping. The bulk write is modelled as the operations applied one
    after another to the store. */
module Ingest {
  import opened Wrappers
  import opened Articles

  /** `{ updateOne: { filter: { link }, update: { $setOnInsert: doc }, upsert: true } }` */
  datatype UpdateOp = UpdateOne(filterLink: string, setOnInsert: Article)

  /** The filter selects exactly the document the operation would insert. */
  predicate KeyedByLink(op: UpdateOp) {
    op.filterLink == op.setOnInsert.link
  }

  /** The links the operations filter on. */
  function OpLinks(ops: seq<UpdateOp>): (links: set<string>)
    ensures forall i :: 0 <= i < |ops| ==> ops[i].filterLink in links
    ensures forall k :: k in links ==> exists i :: 0 <= i < |ops| && ops[i].filterLink == k
    decreases |ops|
  {
    if ops == [] then {} else {ops[0].filterLink} + OpLinks(ops[1..])
  }

  /** Operation `i` is the first one filtering on its link. */
  predicate FirstForLink(ops: seq<UpdateOp>, i: int)
    requires 0 <= i < |ops|
  {
    forall j :: 0 <= j < i ==> ops[j].filterLink != ops[i].filterLink
  }

  /** `articles.map(a => updateOne ...)`: one operation per article, in order,
      each keyed by the article's link and inserting the article unchanged. */
  function OpsFor(articles: seq<Article>): (ops: seq<UpdateOp>)
    ensures |ops| == |articles|
    ensures forall i :: 0 <= i < |ops| ==> KeyedByLink(ops[i]) && ops[i].setOnInsert == articles[i]
    ensures OpLinks(ops) == LinkSet(articles)
  {
    var ops := seq(|articles|, i requires 0 <= i < |articles| => UpdateOne(articles[i].link, articles[i]));
    assert forall op :: op in ops ==> exists i :: 0 <= i < |articles| && op == ops[i];
    ops
  }

  /** Dropping the first article drops the first operation. */
  lemma OpsForTail(articles: seq<Article>)
    requires articles != []
    ensures OpsFor(articles)[1..] == OpsFor(articles[1..])
  {
  }

  /** The store after some operations and how many of them inserted. */
  datatype WriteResult = WriteResult(store: Store, upsertedCount: nat)

  /** One upsert with `$setOnInsert`: insert when the filter matches nothing,
      otherwise leave the matched record as it is. */
  function ApplyOne(store: Store, op: UpdateOp): (r: WriteResult)
    ensures op.filterLink in store ==> r == WriteResult(store, 0)
    ensures op.filterLink !in store ==> r.upsertedCount == 1 && r.store == store[op.filterLink := op.setOnInsert]
  {
    if op.filterLink in store then WriteResult(store, 0)
    else WriteResult(store[op.filterLink := op.setOnInsert], 1)
  }

  /** `Article.bulkWrite(ops)` as a sequential fold of insert-if-absent.
      Existing records are untouched, every filtered link ends up stored,
      nothing else is added, the first operation for a new link decides its
      record, and `upsertedCount` is exactly the number of new records. */
  function BulkWrite(store: Store, ops: seq<UpdateOp>): (r: WriteResult)
    ensures r.upsertedCount <= |ops|
    ensures forall k :: k in store ==> k in r.store && r.store[k] == store[k]
    ensures r.store.Keys == store.Keys + OpLinks(ops)
    decreases |ops|
  {
    if ops == [] then WriteResult(store, 0)
    else
      var first := ApplyOne(store, ops[0]);
      var rest := BulkWrite(first.store, ops[1..]);
      WriteResult(rest.store, first.upsertedCount + rest.upsertedCount)
  }

  /** `upsertedCount` is exactly the number of records the write added. */
  lemma {:induction false} BulkWriteCount(store: Store, ops: seq<UpdateOp>)
    ensures |BulkWrite(store, ops).store| == |store| + BulkWrite(store, ops).upsertedCount
    decreases |ops|
  {
    if ops != [] {
      var first := ApplyOne(store, ops[0]);
      if ops[0].filterLink !in store {
        assert first.store.Keys == store.Keys + {ops[0].filterLink};
      }
      BulkWriteCount(first.store, ops[1..]);
    }
  }

  /** The first operation filtering on a link absent from the store decides
      the record stored under that link. */
  lemma {:induction false} BulkWriteFirstWins(store: Store, ops: seq<UpdateOp>, i: int)
    requires 0 <= i < |ops|
    requires ops[i].filterLink !in store && FirstForLink(ops, i)
    ensures BulkWrite(store, ops).store[ops[i].filterLink] == ops[i].setOnInsert
    decreases |ops|
  {
    var first := ApplyOne(store, ops[0]);
    assert BulkWrite(store, ops).store == BulkWrite(first.store, ops[1..]).store;
    if i == 0 {
      assert first.store[ops[0].filterLink] == ops[0].setOnInsert;
    } else {
      assert ops[1..][i - 1] == ops[i];
      assert ops[0].filterLink != ops[i].filterLink;
      assert ops[i].filterLink !in first.store;
      assert FirstForLink(ops[1..], i - 1) by {
        forall j | 0 <= j < i - 1
          ensures ops[1..][j].filterLink != ops[1..][i - 1].filterLink
        {
          assert ops[1..][j] == ops[j + 1];
        }
      }
      BulkWriteFirstWins(first.store, ops[1..], i - 1);
    }
  }

  /** When every filtered link is already stored, the bulk write is a no-op. */
  lemma {:induction false} BulkWriteAllPresent(store: Store, ops: seq<UpdateOp>)
    requires OpLinks(ops) <= store.Keys
    ensures BulkWrite(store, ops) == WriteResult(store, 0)
    decreases |ops|
  {
    if ops != [] {
      assert ops[0] in ops;
      assert OpLinks(ops[1..]) <= OpLinks(ops) by {
        assert forall op :: op in ops[1..] ==> op in ops;
      }
      BulkWriteAllPresent(store, ops[1..]);
    }
  }

  /** Operations that insert their own link keep the store well keyed. */
  lemma {:induction false} BulkWriteKeepsKeying(store: Store, ops: seq<UpdateOp>)
    requires WellKeyed(store)
    requires forall i :: 0 <= i < |ops| ==> KeyedByLink(ops[i])
    ensures WellKeyed(BulkWrite(store, ops).store)
    decreases |ops|
  {
    if ops != [] {
      BulkWriteKeepsKeying(ApplyOne(store, ops[0]).store, ops[1..]);
    }
  }

  datatype Counts = Counts(newCount: nat, duplicateCount: nat)

  /** The outcome of `upsertArticles`: the store afterwards, the counts it
      returns, and the bulk write it issued (`None` when it made no call). */
  datatype Upserted = Upserted(store: Store, counts: Counts, call: Option<seq<UpdateOp>>)

  /** `upsertArticles(articles)`. An empty batch returns `{0, 0}` without a
      store call. Otherwise one bulk write of the batch's operations is
      issued; records already present are untouched, every link of the
      batch is stored afterwards and no other key appears; `newCount` is the
      number of records added and `duplicateCount` the rest of the batch. */
  function UpsertArticles(store: Store, articles: seq<Article>): (u: Upserted)
    ensures articles == [] ==> u == Upserted(store, Counts(0, 0), None)
    ensures articles != [] ==> u.call == Some(OpsFor(articles))
    ensures u.counts.newCount + u.counts.duplicateCount == |articles|
    ensures forall k :: k in store ==> k in u.store && u.store[k] == store[k]
    ensures u.store.Keys == store.Keys + LinkSet(articles)
    ensures |u.store| == |store| + u.counts.newCount
  {
    if |articles| == 0 then Upserted(store, Counts(0, 0), None)
    else
      var ops := OpsFor(articles);
      var result := BulkWrite(store, ops);
      BulkWriteCount(store, ops);
      var newCount := result.upsertedCount;
      Upserted(result.store, Counts(newCount, |articles| - newCount), Some(ops))
  }

  /** `newCount` is the number of distinct links of the batch that were not
      stored before, so a link repeated inside one batch is inserted once. */
  lemma NewCountIsFreshLinks(store: Store, articles: seq<Article>)
    ensures UpsertArticles(store, articles).counts.newCount == |LinkSet(articles) - store.Keys|
  {
    var u := UpsertArticles(store, articles);
    KeysGrowth(store.Keys, u.store.Keys, LinkSet(articles));
    assert |u.store| == |u.store.Keys| && |store| == |store.Keys|;
  }

  /** Adding a set of links to a key set grows it by the links not in it. */
  lemma KeysGrowth(before: set<string>, after: set<string>, links: set<string>)
    requires after == before + links
    ensures |after| == |before| + |links - before|
  {
    assert after == before + (links - before);
    assert before !! (links - before);
  }

  /** A new link is stored with the first article of the batch carrying it. */
  lemma FirstArticleWins(store: Store, articles: seq<Article>, i: int)
    requires 0 <= i < |articles|
    requires articles[i].link !in store
    requires forall j :: 0 <= j < i ==> articles[j].link != articles[i].link
    ensures UpsertArticles(store, articles).store[articles[i].link] == articles[i]
  {
    var ops := OpsFor(articles);
    BulkWriteFirstWins(store, ops, i);
  }

  /** Ingestion keeps the store well keyed: at most one record per link. */
  lemma UpsertKeepsKeying(store: Store, articles: seq<Article>)
    requires WellKeyed(store)
    ensures WellKeyed(UpsertArticles(store, articles).store)
  {
    if articles != [] {
      BulkWriteKeepsKeying(store, OpsFor(articles));
    }
  }

  /** Re-ingesting a batch right after ingesting it changes nothing and
      reports every article as a duplicate. */
  lemma UpsertIdempotent(store: Store, articles: seq<Article>)
    ensures var once := UpsertArticles(store, articles);
            var twice := UpsertArticles(once.store, articles);
            twice.store == once.store && twice.counts == Counts(0, |articles|)
  {
    var once := UpsertArticles(store, articles);
    if articles != [] {
      BulkWriteAllPresent(once.store, OpsFor(articles));
    }
  }

  /** A link repeated inside one batch is inserted once, from its first
      article, and the repeat is counted as a duplicate. */
  lemma RepeatedLinkCountedOnce(store: Store, batch: seq<Article>)
    requires |batch| == 2 && batch[1].link == batch[0].link && batch[0].link !in store
    ensures var u := UpsertArticles(store, batch);
            u.counts == Counts(1, 1) && u.store[batch[0].link] == batch[0]
  {
    SingleFreshLink(store, batch);
    FirstArticleWins(store, batch, 0);
  }

  /** A batch that brings exactly one unseen link adds one record. */
  lemma SingleFreshLink(store: Store, batch: seq<Article>)
    requires |batch| == 2 && batch[1].link == batch[0].link && batch[0].link !in store
    ensures UpsertArticles(store, batch).counts == Counts(1, 1)
  {
    assert LinkSet(batch) - store.Keys == {batch[0].link} by {
      assert batch == [batch[0], batch[1]];
      LinkSetPair(batch[0], batch[1]);
    }
    NewCountIsFreshLinks(store, batch);
  }


}
