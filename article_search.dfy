/**
 * The retrieval half of the article search.
 *
 * `fetch_articles_from_mysql` selects the rows of the articles table whose id is
 * among the given ids and whose publication date lies in the inclusive window, with
 * no ordering asked for; it is modelled as a filter over the table's rows whose
 * result order is left open.  `search_articles` parses the date window, takes the ids of
 * the vector index's hits (the index's reply is an input: embedding and
 * nearest-neighbour search are outside the model), returns early when there are
 * none, fetches, and turns every failure on the way into an empty result.
 */
module ArticleSearch {
  import opened Wrappers
  import opened CivilDate
  import opened DateQuery

  /** A row `(id, title, pub_date)`; `pub_date` is a nullable DATE column. */
  datatype Article = Article(id: nat, title: string, pubDate: Option<Date>)

  /** The record store: reachable with the rows of the `articles` table, or not. */
  datatype Store = StoreUnavailable | Table(rows: seq<Article>)

  /** What the vector index returns for the query's embedding. */
  datatype IndexReply = IndexUnavailable | Hits(ids: seq<nat>)

  /** `pub_date BETWEEN start AND end`: inclusive at both ends; a NULL date never qualifies. */
  predicate PublishedWithin(a: Article, start: Date, end: Date) {
    a.pubDate.Some? && NotAfter(start, a.pubDate.value) && NotAfter(a.pubDate.value, end)
  }

  /** The WHERE clause. */
  predicate Qualifies(a: Article, ids: seq<nat>, start: Date, end: Date) {
    a.id in ids && PublishedWithin(a, start, end)
  }

  /** The qualifying rows, in table order. */
  function Selected(rows: seq<Article>, ids: seq<nat>, start: Date, end: Date): seq<Article> {
    if rows == [] then []
    else
      var rest := Selected(rows[..|rows| - 1], ids, start, end);
      var last := rows[|rows| - 1];
      if Qualifies(last, ids, start, end) then rest + [last] else rest
  }

  /** `id` is the table's primary key. */
  predicate PrimaryKey(rows: seq<Article>) {
    forall i, j :: 0 <= i < j < |rows| ==> rows[i].id != rows[j].id
  }

  /**
   * The filter keeps every qualifying row as often as the table holds it and drops
   * every other row; how often an id is repeated in `ids` plays no part.
   */
  lemma {:induction false} SelectedCount(rows: seq<Article>, ids: seq<nat>, start: Date, end: Date, a: Article)
    ensures multiset(Selected(rows, ids, start, end))[a] ==
      if Qualifies(a, ids, start, end) then multiset(rows)[a] else 0
  {
    if rows != [] {
      var init := rows[..|rows| - 1];
      SelectedCount(init, ids, start, end, a);
      assert rows == init + [rows[|rows| - 1]];
    }
  }

  /** In a table keyed by `id` no row is held twice. */
  lemma {:induction false} PrimaryKeyRowsOnce(rows: seq<Article>, a: Article)
    requires PrimaryKey(rows)
    ensures multiset(rows)[a] <= 1
  {
    if rows != [] {
      var init := rows[..|rows| - 1];
      var last := rows[|rows| - 1];
      assert rows == init + [last];
      assert PrimaryKey(init);
      PrimaryKeyRowsOnce(init, a);
      if last == a {
        assert a !in init by {
          forall i | 0 <= i < |init| ensures init[i] != a {
            assert init[i].id == rows[i].id != rows[|rows| - 1].id;
          }
        }
      }
    }
  }

  /**
   * `fetch_articles_from_mysql(ids, start, end)`: exactly the stored rows with an id
   * among `ids` and a date from `start` to `end`, each as often as the table holds it,
   * in no promised order.  A store that cannot be reached fails, and so does an empty
   * list of ids, for which the statement reads `id IN ()`, which is not valid SQL.
   */
  method FetchArticles(store: Store, ids: seq<nat>, start: Date, end: Date)
    returns (r: Result<seq<Article>, ()>)
    ensures r.Failure? <==> store.StoreUnavailable? || |ids| == 0
    ensures r.Success? ==>
      forall a :: multiset(r.value)[a] == if Qualifies(a, ids, start, end) then multiset(store.rows)[a] else 0
    ensures r.Success? ==> forall a :: a in r.value ==> a in store.rows && Qualifies(a, ids, start, end)
  {
    if store.StoreUnavailable? || |ids| == 0 {
      return Failure(());
    }
    var articles := Selected(store.rows, ids, start, end);
    forall a ensures multiset(articles)[a] == if Qualifies(a, ids, start, end) then multiset(store.rows)[a] else 0 {
      SelectedCount(store.rows, ids, start, end, a);
    }
    assert forall a :: a in articles ==> multiset(articles)[a] > 0;
    return Success(articles);
  }

  /**
   * `search_articles(query)`, with `datetime.today()` as `today` and the index's
   * reply and the store as inputs.  `fetchIssued` tells whether the store was queried.
   */
  method SearchArticles(query: string, today: Date, index: IndexReply, store: Store)
    returns (results: seq<Article>, fetchIssued: bool)
    requires Valid(today)
    ensures fetchIssued <==> ParseDateRange(query, today).Success? && index.Hits? && |index.ids| > 0
    ensures !fetchIssued || store.StoreUnavailable? ==> results == []
    ensures fetchIssued && store.Table? ==>
      var window := ParseDateRange(query, today).value;
      forall a :: multiset(results)[a] ==
        if Qualifies(a, index.ids, window.start, window.end) then multiset(store.rows)[a] else 0
    ensures fetchIssued && store.Table? ==>
      var window := ParseDateRange(query, today).value;
      forall a :: a in results ==> a in store.rows && Qualifies(a, index.ids, window.start, window.end)
    ensures store.Table? && PrimaryKey(store.rows) ==> forall a :: multiset(results)[a] <= 1
  {
    // Step 1: the date window; a raised ValueError or OverflowError ends in the handler.
    var parsed := ParseDateRange(query, today);
    if parsed.Failure? {
      return [], false;
    }
    // Steps 2 and 3: the index is unreachable, or its hits give the candidate ids.
    if index.IndexUnavailable? {
      return [], false;
    }
    var articleIds := index.ids;
    if |articleIds| == 0 {
      return [], false;
    }
    // Step 4: the store.
    var fetched := FetchArticles(store, articleIds, parsed.value.start, parsed.value.end);
    fetchIssued := true;
    if fetched.Failure? {
      return [], fetchIssued;
    }
    // Step 5: a non-empty list is returned as it is, an empty one as [].
    var articles := fetched.value;
    if |articles| > 0 {
      results := articles;
    } else {
      results := [];
    }
    if PrimaryKey(store.rows) {
      forall a ensures multiset(results)[a] <= 1 {
        PrimaryKeyRowsOnce(store.rows, a);
      }
    }
  }
}
