/**
 * The two read queries the pages use: the newest 50 articles by `created_at`,
 * and a point lookup by id. A query that throws yields the empty list or `null`.
 */
module ArticleReads {
  import opened Wrappers
  import opened ArticleStore
  import SyncRoute

  /** `LIMIT 50` of the listing query. */
  const PageSize: nat := 50

  function Min(a: nat, b: nat): nat { if a <= b then a else b }

  /** `id` is a newest row among the ids in `pool` (ties allowed). */
  ghost predicate IsNewestIn(t: Table, pool: set<string>, id: string)
    requires pool <= t.Keys
  {
    id in pool && forall k :: k in pool ==> t[k].createdAt <= t[id].createdAt
  }

  lemma {:induction false} NewestExists(t: Table, pool: set<string>)
    requires pool <= t.Keys && pool != {}
    ensures exists id :: IsNewestIn(t, pool, id)
    decreases pool
  {
    var id :| id in pool;
    if pool != {id} {
      var rest := pool - {id};
      NewestExists(t, rest);
      var best :| IsNewestIn(t, rest, best);
      if t[best].createdAt < t[id].createdAt {
        assert IsNewestIn(t, pool, id);
      } else {
        assert IsNewestIn(t, pool, best);
      }
    } else {
      assert IsNewestIn(t, pool, id);
    }
  }

  /** A newest row of the pool: the row the query emits next. */
  ghost function NewestId(t: Table, pool: set<string>): (id: string)
    requires pool <= t.Keys && pool != {}
    ensures IsNewestIn(t, pool, id)
  {
    NewestExists(t, pool);
    var id :| IsNewestIn(t, pool, id); id
  }

  /** The article `id` names in `page`. */
  ghost predicate Listed(page: seq<Article>, id: string)
  {
    exists i :: 0 <= i < |page| && page[i].id == id
  }

  /**
   * `ORDER BY created_at DESC LIMIT n` over the rows whose ids are in `pool`: one of
   * the answers the database may give (rows with equal `created_at` may come in any
   * order; this picks one). `NewestDistinct`, `NewestSorted` and `NewestComplete` state the ordering.
   */
  ghost function NewestOf(t: Table, pool: set<string>, n: nat): (page: seq<Article>)
    requires pool <= t.Keys
    ensures |page| == Min(n, |pool|)
    ensures forall i :: 0 <= i < |page| ==> page[i].id in pool && page[i].body == t[page[i].id].body
    decreases n
  {
    if n == 0 || pool == {} then []
    else
      var id := NewestId(t, pool);
      [Article(id, t[id].body)] + NewestOf(t, pool - {id}, n - 1)
  }

  /** No id appears twice in `page`. */
  ghost predicate DistinctIds(page: seq<Article>)
  {
    forall i, j :: 0 <= i < j < |page| ==> page[i].id != page[j].id
  }

  /** `page` lists rows of `t` newest first. */
  ghost predicate NewestFirst(t: Table, page: seq<Article>)
  {
    forall i, j :: 0 <= i < j < |page| && page[i].id in t && page[j].id in t ==> t[page[i].id].createdAt >= t[page[j].id].createdAt
  }

  /** No row of `pool` that `page` leaves out is newer than a row it lists. */
  ghost predicate NoNewerOmitted(t: Table, pool: set<string>, page: seq<Article>)
    requires pool <= t.Keys
  {
    forall k, i :: k in pool && !Listed(page, k) && 0 <= i < |page| && page[i].id in t ==> t[k].createdAt <= t[page[i].id].createdAt
  }

  /** The listing names no row twice. */
  lemma {:induction false} NewestDistinct(t: Table, pool: set<string>, n: nat)
    requires pool <= t.Keys
    ensures DistinctIds(NewestOf(t, pool, n))
    decreases n
  {
    if n != 0 && pool != {} {
      var id := NewestId(t, pool);
      var tail := NewestOf(t, pool - {id}, n - 1);
      NewestDistinct(t, pool - {id}, n - 1);
      var page := NewestOf(t, pool, n);
      assert page == [Article(id, t[id].body)] + tail;
      forall i, j | 0 <= i < j < |page| ensures page[i].id != page[j].id {
        assert page[j].id == tail[j - 1].id && tail[j - 1].id in pool - {id};
        if i > 0 {
          assert page[i].id == tail[i - 1].id && tail[i - 1].id != tail[j - 1].id;
        }
      }
    }
  }

  /** The listing is in non-increasing `created_at` order. */
  lemma {:induction false} NewestSorted(t: Table, pool: set<string>, n: nat)
    requires pool <= t.Keys
    ensures NewestFirst(t, NewestOf(t, pool, n))
    decreases n
  {
    if n != 0 && pool != {} {
      var id := NewestId(t, pool);
      var tail := NewestOf(t, pool - {id}, n - 1);
      NewestSorted(t, pool - {id}, n - 1);
      var page := NewestOf(t, pool, n);
      assert page == [Article(id, t[id].body)] + tail;
      forall i, j | 0 <= i < j < |page| ensures t[page[i].id].createdAt >= t[page[j].id].createdAt {
        assert page[j].id == tail[j - 1].id && tail[j - 1].id in pool;
        if i > 0 {
          assert page[i].id == tail[i - 1].id;
          assert t[tail[i - 1].id].createdAt >= t[tail[j - 1].id].createdAt;
        }
      }
    }
  }

  /** No row of the pool left out of the listing is newer than a listed row. */
  lemma {:induction false} NewestComplete(t: Table, pool: set<string>, n: nat)
    requires pool <= t.Keys
    ensures NoNewerOmitted(t, pool, NewestOf(t, pool, n))
    decreases n
  {
    if n != 0 && pool != {} {
      var id := NewestId(t, pool);
      var tail := NewestOf(t, pool - {id}, n - 1);
      NewestComplete(t, pool - {id}, n - 1);
      var page := NewestOf(t, pool, n);
      assert page == [Article(id, t[id].body)] + tail;
      forall k, i | k in pool && !Listed(page, k) && 0 <= i < |page|
        ensures t[k].createdAt <= t[page[i].id].createdAt
      {
        NotListedInTail(Article(id, t[id].body), tail, k);
        if i > 0 {
          assert page[i] == tail[i - 1];
          assert k in pool - {id} && tail[i - 1].id in t;
          assert t[k].createdAt <= t[tail[i - 1].id].createdAt;
        } else {
          assert page[0].id == id && IsNewestIn(t, pool, id);
        }
      }
    }
  }

  /** An id a page does not list is neither its head nor listed in its tail. */
  lemma NotListedInTail(head: Article, tail: seq<Article>, k: string)
    requires !Listed([head] + tail, k)
    ensures k != head.id && !Listed(tail, k)
  {
    var page := [head] + tail;
    assert page[0] == head;
    forall m | 0 <= m < |tail| ensures tail[m].id != k {
      assert page[m + 1] == tail[m];
    }
  }

  /** `getAllArticles`: the newest page, or `[]` if the query throws. */
  ghost function GetAllArticles(t: Table, queryFails: bool): (page: seq<Article>)
    ensures |page| <= PageSize
    ensures queryFails ==> page == []
    ensures !queryFails ==> |page| == Min(PageSize, |t|)
  {
    if queryFails then [] else NewestOf(t, t.Keys, PageSize)
  }

  /** `getArticleById`: the row with this id, or `null` if there is none or the query throws. */
  function GetArticleById(t: Table, id: string, queryFails: bool): (r: Option<Article>)
    ensures r.Some? <==> !queryFails && id in t
    ensures r.Some? ==> r.value.id == id && r.value.body == t[id].body
  {
    if queryFails || id !in t then None else Some(Article(id, t[id].body))
  }

  /** Every article of the listing can be opened by its id and shows the same fields. */
  lemma ListedArticlesResolve(t: Table, i: nat)
    requires i < |GetAllArticles(t, false)|
    ensures GetArticleById(t, GetAllArticles(t, false)[i].id, false) == Some(GetAllArticles(t, false)[i])
  {
  }


  /**
   * The listing the home page shows is a newest-first page of the table: no row
   * twice, newest first, and nothing left out is newer than anything shown.
   */
  lemma ListingIsNewestPage(t: Table)
    ensures var page := GetAllArticles(t, false);
      DistinctIds(page) && NewestFirst(t, page) && NoNewerOmitted(t, t.Keys, page)
  {
    NewestDistinct(t, t.Keys, PageSize);
    NewestSorted(t, t.Keys, PageSize);
    NewestComplete(t, t.Keys, PageSize);
  }

  /**
   * After a successful sync, an article the batch inserted can be opened by its id
   * and shows the fields of its last occurrence in the batch.
   */
  lemma {:induction false} SyncedArticleReadable(
    t: Table, expectedKey: Option<string>, req: SyncRoute.Request, now: int, fault: SyncRoute.Fault, j: nat)
    requires SyncRoute.Sync(t, expectedKey, req, now, fault).response.Synced?
    requires req.body.Articles? && j < |req.body.batch| && req.body.batch[j].id !in t
    requires forall k :: j < k < |req.body.batch| ==> req.body.batch[k].id != req.body.batch[j].id
    ensures GetArticleById(SyncRoute.Sync(t, expectedKey, req, now, fault).table, req.body.batch[j].id, false)
         == Some(req.body.batch[j])
  {
    SyncRoute.SyncedRow(t, expectedKey, req, now, fault, j);
  }
}
