/** The reservation table. */
module Reservations {
  // The reservation table behind the `X-Idempotency-Key` header: what each database statement of
  // src/plugins/idempotency.ts does to a row, and the plugin's `reserve` and `record` written against a mutable
  // table.

  import opened Basics

  datatype Key = Key(userId: string, scope: string, key: string)
  datatype Status = InProgress | Completed | Failed
  datatype Response = Response(statusCode: int, body: string)

  /** One reservation. `id` is the row's own primary key, so it names one lifetime of the row. */
  datatype Row = Row(
    id: nat, hash: string, status: Status,
    statusCode: Option<int>, responseJson: Option<string>,
    updatedAt: int, expiresAt: int)

  /** IDEMPOTENCY_TTL_MS and IDEMPOTENCY_IN_PROGRESS_TIMEOUT_MS. */
  datatype Config = Config(ttl: int, timeout: int)

  predicate ValidConfig(c: Config) {
    c.ttl > 0 && c.timeout > 0
  }

  type Table = map<Key, Row>

  predicate IsAbandoned(c: Config, row: Row, now: int) {
    now - row.updatedAt > c.timeout
  }

  /** The WHERE clause of the guarded re-claim, evaluated with the clock value `at`. */
  predicate Claimable(c: Config, row: Row, hash: string, at: int) {
    && row.hash == hash
    && (|| row.status.Failed?
        || (row.status.InProgress? && row.updatedAt < at - c.timeout))
  }

  function InsertedRow(c: Config, id: nat, hash: string, at: int): Row {
    Row(id, hash, InProgress, None, None, at, at + c.ttl)
  }

  function ReclaimedRow(c: Config, row: Row, at: int): Row {
    row.(status := InProgress, statusCode := None, responseJson := None,
         updatedAt := at, expiresAt := at + c.ttl)
  }

  predicate IsSuccess(statusCode: int) {
    200 <= statusCode < 300
  }

  /** Only a success is durable; any other status leaves the key retryable and its expiry alone. */
  function RecordedRow(c: Config, row: Row, at: int, statusCode: int, body: string): Row {
    if IsSuccess(statusCode) then
      row.(status := Completed, statusCode := Some(statusCode), responseJson := Some(body),
           updatedAt := at, expiresAt := at + c.ttl)
    else
      row.(status := Failed, statusCode := None, responseJson := None, updatedAt := at)
  }

  /** The table after the cleanup job deleted every row that expired before `cutoff`. */
  function Unswept(rows: Table, cutoff: int): (left: Table)
    ensures left.Keys <= rows.Keys
    ensures forall k :: k in left ==> left[k] == rows[k] && rows[k].expiresAt >= cutoff
    ensures forall k :: k in rows && k !in left ==> rows[k].expiresAt < cutoff
  {
    map k | k in rows && rows[k].expiresAt >= cutoff :: rows[k]
  }

  lemma FewerRows(rows: Table, left: Table)
    requires left.Keys <= rows.Keys
    ensures |left| <= |rows|
  {
    assert |left.Keys| <= |rows.Keys| by { CardinalityOfSubset(left.Keys, rows.Keys); }
  }

  lemma CardinalityOfSubset<T>(a: set<T>, b: set<T>)
    requires a <= b
    ensures |a| <= |b|
  {
    assert b == a + (b - a);
  }

  /**
   * A sweep gives its key back to newcomers and nothing else: a request for a swept key is granted a new row,
   * one for a kept key finds what it would have found.
   */
  lemma SweepFreesExpired(c: Config, db: Db, cutoff: int, k: Key, hash: string, at: int, rowId: nat)
    requires ValidDb(db)
    ensures var swept := Db(Unswept(db.rows, cutoff), db.nextId);
            && ValidDb(swept)
            && (k in db.rows && db.rows[k].expiresAt < cutoff ==> (MayTake(c, swept, k, hash, at, rowId) <==> rowId == db.nextId))
            && (k in db.rows && db.rows[k].expiresAt >= cutoff ==> Find(swept, k) == Find(db, k))
  {
  }

  function ReplayOf(row: Row): Response {
    Response(if row.statusCode.Some? then row.statusCode.value else 200,
             if row.responseJson.Some? then row.responseJson.value else "null")
  }

  /** The table and the next fresh row id. */
  datatype Db = Db(rows: Table, nextId: nat)

  ghost predicate ValidDb(db: Db) {
    forall k :: k in db.rows ==> db.rows[k].id < db.nextId
  }

  function Find(db: Db, k: Key): Option<Row> {
    if k in db.rows then Some(db.rows[k]) else None
  }

  /** What `reserve` tells its caller; `Rethrown` is the unique-constraint error passed on. */
  datatype Outcome = Granted(rowId: nat) | Replayed(response: Response) | HashConflict | StillRunning | Rethrown

  /** A table in which a request for `k` with this hash may take the key, and the row id it then holds. */
  ghost predicate MayTake(c: Config, db: Db, k: Key, hash: string, at: int, rowId: nat) {
    if k in db.rows then Claimable(c, db.rows[k], hash, at) && rowId == db.rows[k].id else rowId == db.nextId
  }

  /** The response that a completed row holds; a column that is null reads as 200 and as `null`. */
  ghost predicate Shows(row: Row, response: Response) {
    && response.statusCode == (match row.statusCode case Some(code) => code case None => 200)
    && response.body == (match row.responseJson case Some(body) => body case None => "null")
  }

  /** A row that decides a request as soon as it is read: the key is another body's, answered, or being worked on. */
  ghost predicate Settles(c: Config, row: Row, hash: string, now: int) {
    row.hash != hash || row.status.Completed? || (row.status.InProgress? && now - row.updatedAt <= c.timeout)
  }

  /** What such a row tells a request, and what any row tells one that lost its race. */
  ghost predicate Tells(row: Row, hash: string, outcome: Outcome) {
    match outcome
    case HashConflict => row.hash != hash
    case Replayed(response) => row.hash == hash && row.status.Completed? && Shows(row, response)
    case StillRunning => row.hash == hash && !row.status.Completed?
    case _ => false
  }

  /** Every row tells a request exactly one thing. */
  lemma RowsTellOneOutcome(row: Row, hash: string)
    ensures exists o :: Tells(row, hash, o)
    ensures forall o, o' :: Tells(row, hash, o) && Tells(row, hash, o') ==> o == o'
  {
    var shown := Response(match row.statusCode case Some(code) => code case None => 200,
                          match row.responseJson case Some(body) => body case None => "null");
    assert Tells(row, hash, HashConflict) || Tells(row, hash, Replayed(shown)) || Tells(row, hash, StillRunning);
  }

  /**
   * The checks on the row read and the WHERE clause of the re-claim say the same: a row matches the re-claim
   * exactly when it does not decide the request. So a request whose reservation nobody touches is never refused
   * by its own update.
   */
  lemma ClaimableIffUnsettled(c: Config, row: Row, hash: string, now: int)
    ensures Claimable(c, row, hash, now) <==> !Settles(c, row, hash, now)
    ensures !Settles(c, row, hash, now) <==> row.hash == hash && (row.status.Failed? || (row.status.InProgress? && IsAbandoned(c, row, now)))
  {
  }

  /** A recorded failure leaves the reservation as claimable as if it were abandoned, at once and for good, and shows nothing. */
  lemma FailureIsClaimable(c: Config, row: Row, at: int, statusCode: int, body: string)
    requires statusCode < 200 || statusCode >= 300
    ensures var failed := RecordedRow(c, row, at, statusCode, body);
            && (forall now, hash :: Claimable(c, failed, hash, now) <==> hash == row.hash)
            && failed.statusCode == None && failed.responseJson == None
            && failed.id == row.id && failed.hash == row.hash && failed.expiresAt == row.expiresAt && failed.updatedAt == at
  {
  }

  /** A recorded success answers every later request for the key, by its body, and counts the retention afresh. */
  lemma SuccessSettles(c: Config, row: Row, at: int, statusCode: int, body: string)
    requires 200 <= statusCode < 300
    ensures var done := RecordedRow(c, row, at, statusCode, body);
            && (forall now, hash :: Settles(c, done, hash, now))
            && (forall hash, o :: Tells(done, hash, o) <==> o == if hash == row.hash then Replayed(Response(statusCode, body)) else HashConflict)
            && done.id == row.id && done.hash == row.hash && done.expiresAt == at + c.ttl && done.updatedAt == at
  {
  }

  class ReservationTable {
    const config: Config
    var db: Db

    ghost predicate Valid() reads this {
      ValidDb(db)
    }

    constructor (c: Config)
      ensures Valid() && config == c && db == Db(map[], 0)
    {
      config, db := c, Db(map[], 0);
    }

    method FindUnique(k: Key) returns (row: Option<Row>)
      ensures row == Find(db, k)
    {
      if k in db.rows { row := Some(db.rows[k]); } else { row := None; }
    }

    /** The insert fails on the unique constraint and changes nothing when the key is taken. */
    method Create(k: Key, hash: string, at: int) returns (created: bool)
      requires Valid()
      modifies this`db
      ensures Valid()
      ensures created == (k !in old(db).rows)
      ensures created ==> db == Db(old(db).rows[k := InsertedRow(config, old(db).nextId, hash, at)], old(db).nextId + 1)
      ensures !created ==> db == old(db)
    {
      created := k !in db.rows;
      if created {
        db := Db(db.rows[k := InsertedRow(config, db.nextId, hash, at)], db.nextId + 1);
      }
    }

    method UpdateManyClaimable(k: Key, hash: string, at: int) returns (count: nat)
      requires Valid()
      modifies this`db
      ensures Valid()
      ensures count == if k in old(db).rows && Claimable(config, old(db).rows[k], hash, at) then 1 else 0
      ensures count == 1 ==> db == old(db).(rows := old(db).rows[k := ReclaimedRow(config, old(db).rows[k], at)])
      ensures count == 0 ==> db == old(db)
    {
      count := 0;
      if k in db.rows && Claimable(config, db.rows[k], hash, at) {
        db := db.(rows := db.rows[k := ReclaimedRow(config, db.rows[k], at)]);
        count := 1;
      }
    }

    /**
     * `record`: an update by key alone, so it needs the row to exist but not to be the caller's. After a success
     * the row answers every request for the key; after anything else it can be claimed again at any time.
     */
    method Record(k: Key, at: int, statusCode: int, body: string) returns (updated: bool)
      requires Valid()
      modifies this`db
      ensures Valid()
      ensures updated == (k in old(db).rows)
      ensures updated ==> db == old(db).(rows := old(db).rows[k := RecordedRow(config, old(db).rows[k], at, statusCode, body)])
      ensures !updated ==> db == old(db)
      ensures updated && 200 <= statusCode < 300 ==>
        && db.rows[k].expiresAt == at + config.ttl
        && forall hash, o :: Tells(db.rows[k], hash, o) <==>
             o == if hash == old(db).rows[k].hash then Replayed(Response(statusCode, body)) else HashConflict
      ensures updated && !(200 <= statusCode < 300) ==>
        && db.rows[k].expiresAt == old(db).rows[k].expiresAt && db.rows[k].responseJson == None
        && forall now, hash :: Claimable(config, db.rows[k], hash, now) <==> hash == old(db).rows[k].hash
    {
      updated := k in db.rows;
      if updated {
        db := db.(rows := db.rows[k := RecordedRow(config, db.rows[k], at, statusCode, body)]);
      }
    }

    /**
     * The cleanup job: a key is freed exactly when its row expired before the cutoff, every other row stays as
     * it is, and no row id is used again.
     */
    method DeleteExpired(cutoff: int) returns (count: nat)
      requires Valid()
      modifies this`db
      ensures Valid() && db.nextId == old(db).nextId
      ensures forall k :: k in db.rows <==> k in old(db).rows && old(db).rows[k].expiresAt >= cutoff
      ensures forall k :: k in db.rows ==> db.rows[k] == old(db).rows[k]
      ensures count == |old(db).rows| - |db.rows|
    {
      var before := db.rows;
      db := db.(rows := Unswept(before, cutoff));
      FewerRows(before, db.rows);
      count := |before| - |db.rows|;
    }

    /**
     * `reserve`, statement for statement. `others1` and `others2` are whatever other requests and the
     * sweep do to the table between its first and second and its second and third statement. A row that
     * decides the request when it is first read is the answer. Otherwise the table of the second statement
     * decides whether the key is granted, to a fresh row in progress for this hash; and a request that loses
     * there is answered from the table of the third, having written nothing.
     */
    method Reserve(k: Key, hash: string, now: int, others1: Db -> Db, others2: Db -> Db) returns (outcome: Outcome)
      requires Valid()
      requires forall d :: ValidDb(d) ==> ValidDb(others1(d))
      requires forall d :: ValidDb(d) ==> ValidDb(others2(d))
      modifies this`db
      ensures Valid()
      ensures k in old(db).rows && Settles(config, old(db).rows[k], hash, now) ==>
        Tells(old(db).rows[k], hash, outcome) && db == old(db)
      ensures !(k in old(db).rows && Settles(config, old(db).rows[k], hash, now)) ==>
        var second, third := others1(old(db)), others2(others1(old(db)));
        && (outcome.Granted? <==>
              if k in old(db).rows then k in second.rows && !Settles(config, second.rows[k], hash, now) else k !in second.rows)
        && (outcome.Granted? ==>
              && MayTake(config, second, k, hash, now, outcome.rowId)
              && db.nextId == (if k in second.rows then second.nextId else second.nextId + 1)
              && db.rows == second.rows[k := Row(outcome.rowId, hash, InProgress, None, None, now, now + config.ttl)])
        && (!outcome.Granted? ==>
              && db == third
              && if k in third.rows then Tells(third.rows[k], hash, outcome)
                 else outcome == if k in old(db).rows then StillRunning else Rethrown)
    {
      var existing := FindUnique(k);
      if existing.Some? {
        if existing.value.hash != hash { return HashConflict; }
        if existing.value.status.Completed? { return Replayed(ReplayOf(existing.value)); }
        if existing.value.status.InProgress? && !IsAbandoned(config, existing.value, now) { return StillRunning; }
        db := others1(db);
        var count := UpdateManyClaimable(k, hash, now);
        if count != 1 {
          db := others2(db);
          var winner := FindUnique(k);
          if winner.None? { return StillRunning; }
          if winner.value.hash != hash { return HashConflict; }
          if winner.value.status.Completed? { return Replayed(ReplayOf(winner.value)); }
          return StillRunning;
        }
        return Granted(db.rows[k].id);
      }
      db := others1(db);
      var id := db.nextId;
      var created := Create(k, hash, now);
      if !created {
        db := others2(db);
        var winner := FindUnique(k);
        if winner.None? { return Rethrown; }
        if winner.value.hash != hash { return HashConflict; }
        if winner.value.status.Completed? { return Replayed(ReplayOf(winner.value)); }
        return StillRunning;
      }
      return Granted(id);
    }
  }
}
