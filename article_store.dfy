/**
 * The `articles` table of the site's Postgres store, keyed by article id.
 * A row holds the eight content fields written by the sync endpoint and the
 * server-assigned `created_at` timestamp (seconds), used only for retention
 * and ordering.
 */
module ArticleStore {
  import opened Wrappers

  /** The eight non-id columns a sync record carries; `category` may be absent. */
  datatype Content = Content(
    title: string,
    summary: string,
    content: string,
    originalUrl: string,
    imageUrl: string,
    source: string,
    publishedAt: string,
    category: Option<string>)

  /** An article as producers send it and as the read queries return it: the nine columns. */
  datatype Article = Article(id: string, body: Content)

  datatype Row = Row(body: Content, createdAt: int)

  type Table = map<string, Row>

  /** Retention window of the sync cleanup: 14 days, in seconds. */
  const RetentionSeconds: int := 14 * 24 * 60 * 60

  /** The table after one record is reconciled: overwrite the row if its id exists, else insert it at `now`. */
  function Upsert(t: Table, a: Article, now: int): (r: Table)
    ensures r.Keys == t.Keys + {a.id}
    ensures r[a.id].body == a.body
    ensures r[a.id].createdAt == if a.id in t then t[a.id].createdAt else now
    ensures forall id :: id in t && id != a.id ==> r[id] == t[id]
  {
    if a.id in t then t[a.id := Row(a.body, t[a.id].createdAt)]
    else t[a.id := Row(a.body, now)]
  }

  /** The set of ids occurring in a batch. */
  function Ids(batch: seq<Article>): set<string>
  {
    if batch == [] then {} else Ids(batch[..|batch| - 1]) + {batch[|batch| - 1].id}
  }

  lemma {:induction false} IdsMembership(batch: seq<Article>, id: string)
    ensures id in Ids(batch) <==> exists i :: 0 <= i < |batch| && batch[i].id == id
  {
    if batch != [] {
      var init := batch[..|batch| - 1];
      IdsMembership(init, id);
      if id in Ids(init) {
        var i :| 0 <= i < |init| && init[i].id == id;
        assert batch[i].id == id;
      }
      if exists i :: 0 <= i < |batch| && batch[i].id == id {
        var i :| 0 <= i < |batch| && batch[i].id == id;
        if i < |init| { assert init[i].id == id; }
      }
    }
  }

  /** The table and the two counters after the insert-or-update loop has run over `batch`. */
  datatype Tally = Tally(table: Table, inserted: nat, updated: nat)

  function Reconcile(t: Table, batch: seq<Article>, now: int): (r: Tally)
    ensures r.inserted + r.updated == |batch|
  {
    if batch == [] then Tally(t, 0, 0)
    else Step(Reconcile(t, batch[..|batch| - 1], now), batch[|batch| - 1], now)
  }

  /** Reconciling one more record is one more `Step`. */
  lemma ReconcileSnoc(t: Table, batch: seq<Article>, a: Article, now: int)
    ensures Reconcile(t, batch + [a], now) == Step(Reconcile(t, batch, now), a, now)
  {
    assert (batch + [a])[..|batch|] == batch;
  }

  /** Reconciling adds exactly the batch's ids to the table's keys. */
  lemma {:induction false} ReconcileKeys(t: Table, batch: seq<Article>, now: int)
    ensures Reconcile(t, batch, now).table.Keys == t.Keys + Ids(batch)
  {
    if batch != [] {
      var init, a := batch[..|batch| - 1], batch[|batch| - 1];
      ReconcileKeys(t, init, now);
      var prev := Reconcile(t, init, now).table;
      assert Reconcile(t, batch, now).table.Keys == prev.Keys + {a.id};
    }
  }

  /** Each id of the batch that the table did not hold is inserted exactly once; every other record is an update. */
  lemma {:induction false} ReconcileInserted(t: Table, batch: seq<Article>, now: int)
    ensures Reconcile(t, batch, now).inserted == |Ids(batch) - t.Keys|
    ensures Reconcile(t, batch, now).updated == |batch| - |Ids(batch) - t.Keys|
  {
    if batch != [] {
      var init := batch[..|batch| - 1];
      ReconcileInserted(t, init, now);
      ReconcileKeys(t, init, now);
      NewIdsStep(t.Keys, Ids(init), batch[|batch| - 1].id);
    }
  }

  /** The table grows by exactly the number of inserts. */
  lemma ReconcileSize(t: Table, batch: seq<Article>, now: int)
    ensures |Reconcile(t, batch, now).table| == |t| + Reconcile(t, batch, now).inserted
  {
    ReconcileKeys(t, batch, now);
    ReconcileInserted(t, batch, now);
    var keys := Reconcile(t, batch, now).table.Keys;
    assert keys == t.Keys + (Ids(batch) - t.Keys);
    assert t.Keys !! (Ids(batch) - t.Keys);
    assert |keys| == |t.Keys| + |Ids(batch) - t.Keys|;
  }

  /** Reconciling never changes a stored row's `created_at`; a row it inserts is stamped `now`. */
  lemma {:induction false} ReconcileCreatedAt(t: Table, batch: seq<Article>, now: int, id: string)
    requires id in Reconcile(t, batch, now).table
    ensures Reconcile(t, batch, now).table[id].createdAt == if id in t then t[id].createdAt else now
  {
    if batch != [] {
      var init := batch[..|batch| - 1];
      var prev := Reconcile(t, init, now).table;
      if id in prev {
        ReconcileCreatedAt(t, init, now, id);
      } else {
        ReconcileKeys(t, init, now);
      }
    }
  }

  /** A row whose id the batch does not mention is left exactly as it was (or stays absent). */
  lemma {:induction false} ReconcileUntouched(t: Table, batch: seq<Article>, now: int, id: string)
    requires forall k :: 0 <= k < |batch| ==> batch[k].id != id
    ensures id in Reconcile(t, batch, now).table <==> id in t
    ensures id in t ==> Reconcile(t, batch, now).table[id] == t[id]
  {
    if batch != [] {
      ReconcileUntouched(t, batch[..|batch| - 1], now, id);
    }
  }

  /**
   * After the loop, a row mentioned by the batch holds the fields of the id's last
   * occurrence, with the `created_at` it had before (or `now` if the batch created it).
   */
  lemma {:induction false} ReconcileLastWins(t: Table, batch: seq<Article>, now: int, j: nat)
    requires j < |batch|
    requires forall k :: j < k < |batch| ==> batch[k].id != batch[j].id
    ensures batch[j].id in Reconcile(t, batch, now).table
    ensures Reconcile(t, batch, now).table[batch[j].id]
         == Row(batch[j].body, if batch[j].id in t then t[batch[j].id].createdAt else now)
  {
    var id, init := batch[j].id, batch[..|batch| - 1];
    if j == |batch| - 1 {
      if id in Reconcile(t, init, now).table {
        ReconcileCreatedAt(t, init, now, id);
      } else {
        ReconcileKeys(t, init, now);
      }
    } else {
      ReconcileLastWins(t, init, now, j);
    }
  }

  /** A record whose id occurred earlier in the same batch is counted as an update, never as an insert. */
  lemma RepeatedIdIsUpdate(t: Table, before: seq<Article>, a: Article, now: int, i: nat)
    requires i < |before| && before[i].id == a.id
    ensures Reconcile(t, before + [a], now).inserted == Reconcile(t, before, now).inserted
    ensures Reconcile(t, before + [a], now).updated == Reconcile(t, before, now).updated + 1
  {
    var upTo := before + [a];
    assert upTo[..|upTo| - 1] == before;
    IdsMembership(before, a.id);
    ReconcileKeys(t, before, now);
  }

  /** Extending the handled prefix of a batch by one record is one more `Step`. */
  lemma ReconcilePrefixStep(t: Table, batch: seq<Article>, i: nat, now: int)
    requires i < |batch|
    ensures Reconcile(t, batch[..i + 1], now) == Step(Reconcile(t, batch[..i], now), batch[i], now)
  {
    assert batch[..i + 1] == batch[..i] + [batch[i]];
    ReconcileSnoc(t, batch[..i], batch[i], now);
  }

  /** Syncing the same record twice leaves the table as syncing it once. */
  lemma UpsertIdempotent(t: Table, a: Article, now: int, later: int)
    ensures Upsert(Upsert(t, a, now), a, later) == Upsert(t, a, now)
  {
  }

  /** One iteration of the loop: an existing id counts as an update, a new one as an insert. */
  function Step(prev: Tally, a: Article, now: int): (r: Tally)
    ensures a.id in prev.table ==> r.inserted == prev.inserted && r.updated == prev.updated + 1
    ensures a.id !in prev.table ==> r.inserted == prev.inserted + 1 && r.updated == prev.updated
    ensures r.table == Upsert(prev.table, a, now)
  {
    if a.id in prev.table then Tally(Upsert(prev.table, a, now), prev.inserted, prev.updated + 1)
    else Tally(Upsert(prev.table, a, now), prev.inserted + 1, prev.updated)
  }

  /** How the set of batch ids not yet in the table grows by one more record. */
  lemma NewIdsStep(stored: set<string>, seen: set<string>, id: string)
    ensures id in stored + seen ==> (seen + {id}) - stored == seen - stored
    ensures id !in stored + seen ==> |(seen + {id}) - stored| == |seen - stored| + 1
  {
    if id !in stored + seen {
      assert (seen + {id}) - stored == (seen - stored) + {id};
    }
  }

  /** The rows the retention cleanup keeps: those not strictly older than `cutoff`. */
  function Expire(t: Table, cutoff: int): (r: Table)
    ensures forall id :: id in r <==> id in t && t[id].createdAt >= cutoff
    ensures forall id :: id in r ==> r[id] == t[id]
  {
    map id | id in t && !(t[id].createdAt < cutoff) :: t[id]
  }

  /** The ids the retention cleanup deletes. */
  function ExpiredIds(t: Table, cutoff: int): (s: set<string>)
    ensures forall id :: id in s <==> id in t && t[id].createdAt < cutoff
  {
    set id | id in t && t[id].createdAt < cutoff
  }

  /** The number of deleted rows is the number of expired ids. */
  lemma ExpireCount(t: Table, cutoff: int)
    ensures |t| == |Expire(t, cutoff)| + |ExpiredIds(t, cutoff)|
  {
    var kept := Expire(t, cutoff).Keys;
    var gone := ExpiredIds(t, cutoff);
    assert t.Keys == kept + gone;
    assert kept !! gone;
    assert |t.Keys| == |kept| + |gone|;
  }

  /**
   * The `articles` table as the endpoint sees it: one statement per method.
   * Each statement is atomic; nothing groups several of them into a transaction.
   */
  class ArticleTable {
    var rows: Table

    constructor (initial: Table)
      ensures rows == initial
    {
      rows := initial;
    }

    /** `SELECT id FROM articles WHERE id = $1`: whether a row with this id exists. */
    method Exists(id: string) returns (found: bool)
      ensures found <==> id in rows
    {
      found := id in rows;
    }

    /** `UPDATE articles SET <eight columns> WHERE id = $1`: `created_at` is left alone. */
    method UpdateRow(a: Article)
      requires a.id in rows
      modifies this
      ensures rows == old(rows)[a.id := Row(a.body, old(rows)[a.id].createdAt)]
    {
      rows := rows[a.id := Row(a.body, rows[a.id].createdAt)];
    }

    /** `INSERT INTO articles (<nine columns>)`: `created_at` takes its default, the current time. */
    method InsertRow(a: Article, now: int)
      requires a.id !in rows
      modifies this
      ensures rows == old(rows)[a.id := Row(a.body, now)]
    {
      rows := rows[a.id := Row(a.body, now)];
    }

    /** `DELETE FROM articles WHERE created_at < cutoff`, returning the row count. */
    method DeleteOlderThan(cutoff: int) returns (deleted: nat)
      modifies this
      ensures rows == Expire(old(rows), cutoff)
      ensures deleted == |ExpiredIds(old(rows), cutoff)|
    {
      deleted := |ExpiredIds(rows, cutoff)|;
      rows := Expire(rows, cutoff);
    }
  }
}
