/**
 * The `POST` handler of the sync endpoint: authenticate the caller, validate the
 * batch, insert-or-update each record in turn, then delete rows older than the
 * retention window. `Sync` states the whole call as a function of the table before
 * it; `Post` runs it statement by statement against an `ArticleTable`.
 */
module SyncRoute {
  import opened Wrappers
  import opened ArticleStore

  /** What `request.json()` and `body.articles` yield. */
  datatype Body =
    | Unparsable                      // the body is not JSON, or is JSON `null`: reading it throws
    | NoArticleArray                  // `articles` is missing or is not an array
    | Articles(batch: seq<Article>)

  /** The `x-api-key` header (absent is `None`) and the body. */
  datatype Request = Request(apiKey: Option<string>, body: Body)

  /**
   * Which storage statement throws, if any: one of the two statements of record
   * `index` (so that record is not written), or the final `DELETE`.
   */
  datatype Fault = NoFault | FailOnRecord(index: nat) | FailOnCleanup

  datatype Response =
    | Synced(inserted: nat, updated: nat, deleted: nat, total: nat)
    | Failed(status: int, error: string)

  datatype Outcome = Outcome(response: Response, table: Table)

  const ConfigError: string := "Server configuration error: SYNC_API_KEY not set"
  const AuthError: string := "Unauthorized: Invalid API key"
  const PayloadError: string := "Invalid payload: articles array required"
  const InternalError: string := "Internal server error"

  /** `SYNC_API_KEY` is set and non-empty (an empty string is falsy, so it counts as unset). */
  predicate KeyConfigured(expectedKey: Option<string>)
  {
    expectedKey.Some? && expectedKey.value != ""
  }

  /** The request passes both key checks. */
  predicate Authorized(expectedKey: Option<string>, req: Request)
  {
    KeyConfigured(expectedKey) && req.apiKey == expectedKey
  }

  /** The response and the resulting table of one `POST`, given the table before it and the clock. */
  function Sync(t: Table, expectedKey: Option<string>, req: Request, now: int, fault: Fault): (o: Outcome)
    ensures o.response.Failed? ==> o.response.status in {400, 401, 500}
    ensures o.response.Failed? && o.response.status != 500 ==> o.table == t
    ensures !Authorized(expectedKey, req) ==> o.response.Failed? && o.table == t
    ensures o.response.Synced? ==> req.body.Articles? && o.response.total == |req.body.batch| > 0
  {
    if !KeyConfigured(expectedKey) then Outcome(Failed(500, ConfigError), t)
    else if req.apiKey != expectedKey then Outcome(Failed(401, AuthError), t)
    else match req.body
      case Unparsable => Outcome(Failed(500, InternalError), t)
      case NoArticleArray => Outcome(Failed(400, PayloadError), t)
      case Articles(batch) =>
        if |batch| == 0 then Outcome(Failed(400, PayloadError), t)
        else if fault.FailOnRecord? && fault.index < |batch| then
          Outcome(Failed(500, InternalError), Reconcile(t, batch[..fault.index], now).table)
        else
          var r := Reconcile(t, batch, now);
          if fault.FailOnCleanup? then Outcome(Failed(500, InternalError), r.table)
          else
            var cutoff := now - RetentionSeconds;
            Outcome(Synced(r.inserted, r.updated, |ExpiredIds(r.table, cutoff)|, |batch|), Expire(r.table, cutoff))
  }

  /** The call succeeds exactly when the key checks pass, the batch is a non-empty array and no statement fails. */
  lemma SyncSucceedsIff(t: Table, expectedKey: Option<string>, req: Request, now: int, fault: Fault)
    ensures Sync(t, expectedKey, req, now, fault).response.Synced?
        <==> Authorized(expectedKey, req) && req.body.Articles? && |req.body.batch| > 0
             && !(fault.FailOnRecord? && fault.index < |req.body.batch|) && !fault.FailOnCleanup?
  {
  }

  /** Without a configured server key the call is a 500 whatever key the caller sent, and nothing is written. */
  lemma UnsetKeyRejected(t: Table, expectedKey: Option<string>, req: Request, now: int, fault: Fault)
    requires !KeyConfigured(expectedKey)
    ensures Sync(t, expectedKey, req, now, fault) == Outcome(Failed(500, ConfigError), t)
  {
  }

  /** A caller key that differs from the configured one is a 401, and nothing is written. */
  lemma WrongKeyRejected(t: Table, expectedKey: Option<string>, req: Request, now: int, fault: Fault)
    requires KeyConfigured(expectedKey) && req.apiKey != expectedKey
    ensures Sync(t, expectedKey, req, now, fault) == Outcome(Failed(401, AuthError), t)
  {
  }

  /** An authorized call whose `articles` is not an array, or is empty, is a 400 and writes nothing. */
  lemma BadPayloadRejected(t: Table, expectedKey: Option<string>, req: Request, now: int, fault: Fault)
    requires Authorized(expectedKey, req)
    requires req.body.NoArticleArray? || (req.body.Articles? && req.body.batch == [])
    ensures Sync(t, expectedKey, req, now, fault) == Outcome(Failed(400, PayloadError), t)
  {
  }

  /**
   * On success every record is counted once, as an insert (its id was in neither the
   * table nor earlier in the batch) or as an update, and `deleted` is the number of
   * rows the cleanup removed.
   */
  lemma {:induction false} SyncCounts(t: Table, expectedKey: Option<string>, req: Request, now: int, fault: Fault)
    requires Sync(t, expectedKey, req, now, fault).response.Synced?
    ensures var resp := Sync(t, expectedKey, req, now, fault).response;
      && req.body.Articles?
      && resp.inserted + resp.updated == resp.total == |req.body.batch|
      && resp.inserted == |Ids(req.body.batch) - t.Keys|
      && resp.deleted + |Sync(t, expectedKey, req, now, fault).table| == |t| + resp.inserted
  {
    var batch, cutoff := req.body.batch, now - RetentionSeconds;
    var r := Reconcile(t, batch, now);
    assert Sync(t, expectedKey, req, now, fault)
        == Outcome(Synced(r.inserted, r.updated, |ExpiredIds(r.table, cutoff)|, |batch|), Expire(r.table, cutoff));
    ReconcileInserted(t, batch, now);
    ReconcileSize(t, batch, now);
    ExpireCount(r.table, cutoff);
  }

  /**
   * After a successful call, the row of an id the batch mentions holds its last
   * occurrence's fields and keeps its old `created_at`, so a row updated in this
   * very call is still deleted if it was already older than the retention window;
   * a row the call inserted is never deleted by it.
   */
  lemma {:induction false} SyncedRow(t: Table, expectedKey: Option<string>, req: Request, now: int, fault: Fault, j: nat)
    requires Sync(t, expectedKey, req, now, fault).response.Synced?
    requires req.body.Articles? && j < |req.body.batch|
    requires forall k :: j < k < |req.body.batch| ==> req.body.batch[k].id != req.body.batch[j].id
    ensures var a, after := req.body.batch[j], Sync(t, expectedKey, req, now, fault).table;
      if a.id in t && t[a.id].createdAt < now - RetentionSeconds then a.id !in after
      else a.id in after && after[a.id] == Row(a.body, if a.id in t then t[a.id].createdAt else now)
  {
    ReconcileLastWins(t, req.body.batch, now, j);
  }

  /** After a successful call, a row the batch does not mention survives unchanged unless it expired. */
  lemma {:induction false} SyncedUntouchedRow(t: Table, expectedKey: Option<string>, req: Request, now: int, fault: Fault, id: string)
    requires Sync(t, expectedKey, req, now, fault).response.Synced?
    requires req.body.Articles?
    requires forall k :: 0 <= k < |req.body.batch| ==> req.body.batch[k].id != id
    ensures var after := Sync(t, expectedKey, req, now, fault).table;
      && (id in after <==> id in t && t[id].createdAt >= now - RetentionSeconds)
      && (id in after ==> after[id] == t[id])
  {
    ReconcileUntouched(t, req.body.batch, now, id);
  }

  /**
   * When a statement of record `k` throws, the call is a 500, the records before `k`
   * stay written exactly as the loop left them, and nothing is deleted.
   */
  lemma PartialFailureKeepsPrefix(t: Table, expectedKey: Option<string>, req: Request, now: int, k: nat)
    requires Authorized(expectedKey, req) && req.body.Articles? && k < |req.body.batch|
    ensures Sync(t, expectedKey, req, now, FailOnRecord(k))
         == Outcome(Failed(500, InternalError), Reconcile(t, req.body.batch[..k], now).table)
  {
  }

  /**
   * One record: look its id up, then `UPDATE` the row and count an update, or
   * `INSERT` a new row and count an insert.
   */
  method SyncRecord(db: ArticleTable, a: Article, now: int, inserted: nat, updated: nat)
    returns (inserted': nat, updated': nat)
    modifies db
    ensures Tally(db.rows, inserted', updated') == Step(Tally(old(db.rows), inserted, updated), a, now)
  {
    var existed := db.Exists(a.id);
    if existed {
      db.UpdateRow(a);
      inserted', updated' := inserted, updated + 1;
    } else {
      db.InsertRow(a, now);
      inserted', updated' := inserted + 1, updated;
    }
  }

  /** The insert-or-update loop over the first `stop` records of the batch. */
  method ReconcilePrefix(db: ArticleTable, batch: seq<Article>, stop: nat, now: int)
    returns (inserted: nat, updated: nat)
    requires stop <= |batch|
    modifies db
    ensures Reconcile(old(db.rows), batch[..stop], now) == Tally(db.rows, inserted, updated)
  {
    inserted, updated := 0, 0;
    assert batch[..0] == [];
    for i := 0 to stop
      invariant Reconcile(old(db.rows), batch[..i], now) == Tally(db.rows, inserted, updated)
    {
      ghost var before := Tally(db.rows, inserted, updated);
      inserted, updated := SyncRecord(db, batch[i], now, inserted, updated);
      ReconcilePrefixStep(old(db.rows), batch, i, now);
      assert Reconcile(old(db.rows), batch[..i + 1], now) == Step(before, batch[i], now);
    }
  }

  /**
   * The insert-or-update loop: look each record's id up, then `UPDATE` or `INSERT`
   * it and count which. It ends early at the record whose statement throws, if any,
   * leaving the records before it written.
   */
  method ReconcileBatch(db: ArticleTable, batch: seq<Article>, now: int, fault: Fault)
    returns (completed: bool, inserted: nat, updated: nat)
    modifies db
    ensures completed <==> !(fault.FailOnRecord? && fault.index < |batch|)
    ensures completed ==> Reconcile(old(db.rows), batch, now) == Tally(db.rows, inserted, updated)
    ensures !completed ==> db.rows == Reconcile(old(db.rows), batch[..fault.index], now).table
  {
    completed := !(fault.FailOnRecord? && fault.index < |batch|);
    var stop := if completed then |batch| else fault.index;
    inserted, updated := ReconcilePrefix(db, batch, stop, now);
    if completed {
      assert batch[..stop] == batch;
    }
  }

  /** The handler, statement by statement, against the live table. */
  method Post(db: ArticleTable, expectedKey: Option<string>, req: Request, now: int, fault: Fault)
    returns (resp: Response)
    modifies db
    ensures Outcome(resp, db.rows) == Sync(old(db.rows), expectedKey, req, now, fault)
  {
    if !KeyConfigured(expectedKey) {
      return Failed(500, ConfigError);
    }
    if req.apiKey != expectedKey {
      return Failed(401, AuthError);
    }
    if req.body.Unparsable? {
      return Failed(500, InternalError);
    }
    if req.body.NoArticleArray? || |req.body.batch| == 0 {
      return Failed(400, PayloadError);
    }
    var batch := req.body.batch;
    var completed, inserted, updated := ReconcileBatch(db, batch, now, fault);
    if !completed || fault.FailOnCleanup? {
      return Failed(500, InternalError);
    }
    var deleted := db.DeleteOlderThan(now - RetentionSeconds);
    resp := Synced(inserted, updated, deleted, |batch|);
  }
}
