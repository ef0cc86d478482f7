/** Requests racing for one key. */
module Idempotency {
  // Any number of requests and sweeps interleaving on the reservation table: a request reads, decides on what it
  // read, runs the unique insert or the guarded re-claim, possibly re-reads, holds the key while its handler runs,
  // and records the response it sent (src/plugins/idempotency.ts).

  import opened Basics
  import opened Reservations

  /** Where one request is. `at` is the clock value its pending write was prepared with. */
  datatype Phase =
    | Arrived
    | Looked(existing: Option<Row>)
    | Reclaiming(at: int)
    | Inserting(at: int)
    | LostRace(inserting: bool)
    | LookedAgain(inserting: bool, winner: Option<Row>)
    | Holding(rowId: nat, since: int)
    | Answered(outcome: Outcome)
    | Finished

  datatype Request = Request(key: Key, hash: string, phase: Phase)

  /** What the outside can see: a success recorded on a row, and a recorded response replayed. */
  datatype Event =
    | Success(rowId: nat, request: nat, hash: string, response: Response)
    | Replay(rowId: nat, request: nat, hash: string, response: Response)

  datatype State = State(now: int, db: Db, requests: map<nat, Request>, log: seq<Event>)

  datatype Step =
    | Tick(to: int)
    | Arrive(r: nat, key: Key, hash: string)
    | Look(r: nat)
    | Decide(r: nat)
    | RunReclaim(r: nat)
    | RunInsert(r: nat)
    | LookAgain(r: nat)
    | Resolve(r: nat)
    | Send(r: nat, at: int, statusCode: int, body: string)
    | LoseRecord(r: nat)
    | Sweep(cutoff: int)

  predicate Enabled(s: State, step: Step) {
    match step
    case Tick(to) => s.now <= to
    case Arrive(r, _, _) => r !in s.requests
    case Look(r) => r in s.requests && s.requests[r].phase.Arrived?
    case Decide(r) => r in s.requests && s.requests[r].phase.Looked?
    case RunReclaim(r) => r in s.requests && s.requests[r].phase.Reclaiming?
    case RunInsert(r) => r in s.requests && s.requests[r].phase.Inserting?
    case LookAgain(r) => r in s.requests && s.requests[r].phase.LostRace?
    case Resolve(r) => r in s.requests && s.requests[r].phase.LookedAgain?
    case Send(r, at, _, _) => r in s.requests && s.requests[r].phase.Holding? && at <= s.now
    case LoseRecord(r) => r in s.requests && s.requests[r].phase.Holding?
    case Sweep(cutoff) => cutoff <= s.now
  }

  function Goto(s: State, r: nat, phase: Phase): State
    requires r in s.requests
  {
    s.(requests := s.requests[r := s.requests[r].(phase := phase)])
  }

  function AnswerReplay(s: State, r: nat, row: Row): State
    requires r in s.requests
  {
    Goto(s, r, Answered(Replayed(ReplayOf(row))))
      .(log := s.log + [Replay(row.id, r, s.requests[r].hash, ReplayOf(row))])
  }

  function DoDecide(c: Config, s: State, r: nat): State
    requires Enabled(s, Decide(r))
  {
    match s.requests[r].phase.existing
    case None => Goto(s, r, Inserting(s.now))
    case Some(row) =>
      if row.hash != s.requests[r].hash then Goto(s, r, Answered(HashConflict))
      else if row.status.Completed? then AnswerReplay(s, r, row)
      else if row.status.InProgress? && !IsAbandoned(c, row, s.now) then Goto(s, r, Answered(StillRunning))
      else Goto(s, r, Reclaiming(s.now))
  }

  function DoReclaim(c: Config, s: State, r: nat): State
    requires Enabled(s, RunReclaim(r))
  {
    var k, at := s.requests[r].key, s.requests[r].phase.at;
    if k in s.db.rows && Claimable(c, s.db.rows[k], s.requests[r].hash, at) then
      Goto(s, r, Holding(s.db.rows[k].id, at))
        .(db := s.db.(rows := s.db.rows[k := ReclaimedRow(c, s.db.rows[k], at)]))
    else Goto(s, r, LostRace(false))
  }

  function DoInsert(c: Config, s: State, r: nat): State
    requires Enabled(s, RunInsert(r))
  {
    var k, at := s.requests[r].key, s.requests[r].phase.at;
    if k !in s.db.rows then
      Goto(s, r, Holding(s.db.nextId, at))
        .(db := Db(s.db.rows[k := InsertedRow(c, s.db.nextId, s.requests[r].hash, at)], s.db.nextId + 1))
    else Goto(s, r, LostRace(true))
  }

  function DoResolve(s: State, r: nat): State
    requires Enabled(s, Resolve(r))
  {
    match s.requests[r].phase.winner
    case None => Goto(s, r, Answered(if s.requests[r].phase.inserting then Rethrown else StillRunning))
    case Some(row) =>
      if row.hash != s.requests[r].hash then Goto(s, r, Answered(HashConflict))
      else if row.status.Completed? then AnswerReplay(s, r, row)
      else Goto(s, r, Answered(StillRunning))
  }

  /** The `onSend` hook: record the response on whatever row now has the key, if any. */
  function DoSend(c: Config, s: State, r: nat, at: int, statusCode: int, body: string): State
    requires Enabled(s, Send(r, at, statusCode, body))
  {
    var k := s.requests[r].key;
    if k !in s.db.rows then Goto(s, r, Finished)
    else
      Goto(s, r, Finished)
        .(db := s.db.(rows := s.db.rows[k := RecordedRow(c, s.db.rows[k], at, statusCode, body)]),
          log := if IsSuccess(statusCode)
                 then s.log + [Success(s.db.rows[k].id, r, s.requests[r].hash, Response(statusCode, body))]
                 else s.log)
  }

  function Apply(c: Config, s: State, step: Step): State
    requires Enabled(s, step)
  {
    match step
    case Tick(to) => s.(now := to)
    case Arrive(r, k, hash) => s.(requests := s.requests[r := Request(k, hash, Arrived)])
    case Look(r) => Goto(s, r, Looked(Find(s.db, s.requests[r].key)))
    case Decide(r) => DoDecide(c, s, r)
    case RunReclaim(r) => DoReclaim(c, s, r)
    case RunInsert(r) => DoInsert(c, s, r)
    case LookAgain(r) => Goto(s, r, LookedAgain(s.requests[r].phase.inserting, Find(s.db, s.requests[r].key)))
    case Resolve(r) => DoResolve(s, r)
    case Send(r, at, statusCode, body) => DoSend(c, s, r, at, statusCode, body)
    case LoseRecord(r) => Goto(s, r, Finished)
    case Sweep(cutoff) => s.(db := s.db.(rows := Unswept(s.db.rows, cutoff)))
  }

  const Init := State(0, Db(map[], 0), map[], [])

  ghost predicate StepAt(c: Config, states: seq<State>, steps: seq<Step>, i: nat)
    requires |states| == |steps| + 1 && i < |steps|
  {
    Enabled(states[i], steps[i]) && states[i + 1] == Apply(c, states[i], steps[i])
  }

  /** `states` is a run of `steps` from the empty table. */
  ghost predicate Run(c: Config, states: seq<State>, steps: seq<Step>) {
    && |states| == |steps| + 1
    && states[0] == Init
    && forall i :: 0 <= i < |steps| ==> StepAt(c, states, steps, i)
  }

  predicate Holds(s: State, r: nat) {
    r in s.requests && s.requests[r].phase.Holding?
  }

  /** No holder has outlived the in-progress timeout. */
  ghost predicate Timely(c: Config, s: State) {
    forall r :: Holds(s, r) ==> s.now <= s.requests[r].phase.since + c.timeout
  }

  ghost predicate TimelyRun(c: Config, states: seq<State>) {
    forall i :: 0 <= i < |states| ==> Timely(c, states[i])
  }

  /** The sweep removes no row whose key some request holds. */
  ghost predicate SparesHolders(s: State, step: Step) {
    step.Sweep? ==>
      forall r :: Holds(s, r) && s.requests[r].key in s.db.rows ==> s.db.rows[s.requests[r].key].expiresAt >= step.cutoff
  }

  ghost predicate SparingRun(states: seq<State>, steps: seq<Step>) {
    |states| == |steps| + 1 && forall i :: 0 <= i < |steps| ==> SparesHolders(states[i], steps[i])
  }

  // ----- the statements of `reserve` -----

  ghost predicate Is(s: State, r: nat, request: Request) {
    r in s.requests && s.requests[r] == request
  }

  /**
   * The steps of one request are the statements of `reserve`: a row read first is the answer exactly when it settles
   * the request, the second statement grants the key exactly when it finds the row unsettled, or no row to an insert,
   * and a row read again always is the answer.
   */
  lemma StepsAreReserve(c: Config, s: State, r: nat)
    ensures Enabled(s, Decide(r)) && s.requests[r].phase.existing.Some? ==>
      var q, row := s.requests[r], s.requests[r].phase.existing.value;
      if Settles(c, row, q.hash, s.now) then exists o :: Tells(row, q.hash, o) && Is(DoDecide(c, s, r), r, q.(phase := Answered(o)))
      else Is(DoDecide(c, s, r), r, q.(phase := Reclaiming(s.now)))
    ensures Enabled(s, Decide(r)) && s.requests[r].phase.existing.None? ==>
      Is(DoDecide(c, s, r), r, s.requests[r].(phase := Inserting(s.now)))
    ensures Enabled(s, RunReclaim(r)) ==>
      var q := s.requests[r];
      if q.key in s.db.rows && !Settles(c, s.db.rows[q.key], q.hash, q.phase.at)
      then Is(DoReclaim(c, s, r), r, q.(phase := Holding(s.db.rows[q.key].id, q.phase.at)))
      else DoReclaim(c, s, r).db == s.db && Is(DoReclaim(c, s, r), r, q.(phase := LostRace(false)))
    ensures Enabled(s, RunInsert(r)) ==>
      var q := s.requests[r];
      if q.key !in s.db.rows then Is(DoInsert(c, s, r), r, q.(phase := Holding(s.db.nextId, q.phase.at)))
      else DoInsert(c, s, r).db == s.db && Is(DoInsert(c, s, r), r, q.(phase := LostRace(true)))
    ensures Enabled(s, Resolve(r)) ==>
      var q := s.requests[r];
      match q.phase.winner
      case Some(row) => exists o :: Tells(row, q.hash, o) && Is(DoResolve(s, r), r, q.(phase := Answered(o)))
      case None => Is(DoResolve(s, r), r, q.(phase := Answered(if q.phase.inserting then Rethrown else StillRunning)))
  {
    if Enabled(s, Decide(r)) && s.requests[r].phase.existing.Some? { DecideTells(c, s, r); }
    if Enabled(s, Resolve(r)) && s.requests[r].phase.winner.Some? { ResolveTells(s, r); }
  }

  lemma DecideTells(c: Config, s: State, r: nat)
    requires Enabled(s, Decide(r)) && s.requests[r].phase.existing.Some?
    ensures var q, row := s.requests[r], s.requests[r].phase.existing.value;
            Settles(c, row, q.hash, s.now) ==> exists o :: Tells(row, q.hash, o) && Is(DoDecide(c, s, r), r, q.(phase := Answered(o)))
  {
    var q, row := s.requests[r], s.requests[r].phase.existing.value;
    if Settles(c, row, q.hash, s.now) {
      var o := DoDecide(c, s, r).requests[r].phase.outcome;
      assert Tells(row, q.hash, o) && Is(DoDecide(c, s, r), r, q.(phase := Answered(o)));
    }
  }

  lemma ResolveTells(s: State, r: nat)
    requires Enabled(s, Resolve(r)) && s.requests[r].phase.winner.Some?
    ensures var q, row := s.requests[r], s.requests[r].phase.winner.value;
            exists o :: Tells(row, q.hash, o) && Is(DoResolve(s, r), r, q.(phase := Answered(o)))
  {
    var q, row := s.requests[r], s.requests[r].phase.winner.value;
    var o := DoResolve(s, r).requests[r].phase.outcome;
    assert Tells(row, q.hash, o) && Is(DoResolve(s, r), r, q.(phase := Answered(o)));
  }

  // ----- payload binding -----

  ghost predicate Recorded(log: seq<Event>, rowId: nat, hash: string, response: Response) {
    exists i :: 0 <= i < |log| && log[i].Success? && log[i].rowId == rowId && log[i].hash == hash && log[i].response == response
  }

  /** A completed row shows a response that some request with the row's own hash recorded on it. */
  ghost predicate Backed(log: seq<Event>, row: Row) {
    row.status.Completed? ==> Recorded(log, row.id, row.hash, ReplayOf(row))
  }

  ghost predicate BackedSnapshot(log: seq<Event>, phase: Phase) {
    && (phase.Looked? && phase.existing.Some? ==> Backed(log, phase.existing.value))
    && (phase.LookedAgain? && phase.winner.Some? ==> Backed(log, phase.winner.value))
  }

  ghost predicate RowIdsUnique(db: Db) {
    && ValidDb(db)
    && forall k1, k2 :: k1 in db.rows && k2 in db.rows && db.rows[k1].id == db.rows[k2].id ==> k1 == k2
  }

  ghost predicate HoldersBound(s: State) {
    forall r :: Holds(s, r) ==>
      && s.requests[r].key in s.db.rows
      && s.db.rows[s.requests[r].key].id == s.requests[r].phase.rowId
      && s.db.rows[s.requests[r].key].hash == s.requests[r].hash
  }

  ghost predicate EverythingBacked(s: State) {
    && (forall k :: k in s.db.rows ==> Backed(s.log, s.db.rows[k]))
    && (forall r :: r in s.requests ==> BackedSnapshot(s.log, s.requests[r].phase))
  }

  ghost predicate ReplaysBacked(s: State) {
    forall i :: 0 <= i < |s.log| && s.log[i].Replay? ==> Recorded(s.log, s.log[i].rowId, s.log[i].hash, s.log[i].response)
  }

  ghost predicate Binding(s: State) {
    RowIdsUnique(s.db) && HoldersBound(s) && EverythingBacked(s) && ReplaysBacked(s)
  }

  lemma RecordedGrows(log: seq<Event>, more: seq<Event>)
    ensures forall id, h, p :: Recorded(log, id, h, p) ==> Recorded(log + more, id, h, p)
  {
    forall id, h, p | Recorded(log, id, h, p) ensures Recorded(log + more, id, h, p) {
      var i :| 0 <= i < |log| && log[i].Success? && log[i].rowId == id && log[i].hash == h && log[i].response == p;
      assert (log + more)[i] == log[i];
    }
  }

  lemma ReplayKeepsBinding(s: State, r: nat, row: Row)
    requires Binding(s) && r in s.requests && row.hash == s.requests[r].hash && row.status.Completed? && Backed(s.log, row)
    requires !Holds(s, r)
    ensures Binding(AnswerReplay(s, r, row))
  {
    RecordedGrows(s.log, [Replay(row.id, r, s.requests[r].hash, ReplayOf(row))]);
  }

  lemma SendKeepsBinding(c: Config, s: State, r: nat, at: int, statusCode: int, body: string)
    requires Binding(s) && Enabled(s, Send(r, at, statusCode, body))
    ensures Binding(DoSend(c, s, r, at, statusCode, body))
  {
    var t := DoSend(c, s, r, at, statusCode, body);
    var k := s.requests[r].key;
    assert Holds(s, r);
    if IsSuccess(statusCode) {
      RecordedGrows(s.log, t.log[|s.log|..]);
      assert t.log == s.log + t.log[|s.log|..];
      var row := t.db.rows[k];
      assert t.log[|s.log|] == Success(row.id, r, row.hash, ReplayOf(row));
    }
  }

  /** A request that moves on without touching the table or taking the key. */
  lemma GotoKeepsBinding(s: State, r: nat, phase: Phase)
    requires Binding(s) && r in s.requests && !phase.Holding? && BackedSnapshot(s.log, phase)
    ensures Binding(Goto(s, r, phase))
  {
    var t := Goto(s, r, phase);
    assert forall q :: Holds(t, q) ==> Holds(s, q) && t.requests[q] == s.requests[q];
  }

  lemma ReclaimKeepsBinding(c: Config, s: State, r: nat)
    requires Binding(s) && Enabled(s, RunReclaim(r))
    ensures Binding(DoReclaim(c, s, r))
  {
    var t := DoReclaim(c, s, r);
    var k := s.requests[r].key;
    if t.requests[r].phase.LostRace? {
      GotoKeepsBinding(s, r, LostRace(false));
    } else {
      assert HoldersBound(t) by {
        forall q | Holds(t, q) && q != r ensures s.requests[q].key in s.db.rows && t.requests[q] == s.requests[q] {
          assert Holds(s, q);
        }
      }
      assert EverythingBacked(t);
    }
  }

  lemma InsertKeepsBinding(c: Config, s: State, r: nat)
    requires Binding(s) && Enabled(s, RunInsert(r))
    ensures Binding(DoInsert(c, s, r))
  {
    var t := DoInsert(c, s, r);
    var k := s.requests[r].key;
    if k in s.db.rows {
      GotoKeepsBinding(s, r, LostRace(true));
    } else {
      assert HoldersBound(t) by {
        forall q | Holds(t, q) && q != r ensures s.requests[q].key in s.db.rows && t.requests[q] == s.requests[q] {
          assert Holds(s, q);
        }
      }
      assert EverythingBacked(t);
    }
  }

  lemma SweepKeepsBinding(s: State, cutoff: int)
    requires Binding(s) && SparesHolders(s, Sweep(cutoff))
    ensures Binding(s.(db := s.db.(rows := Unswept(s.db.rows, cutoff))))
  {
    var t := s.(db := s.db.(rows := Unswept(s.db.rows, cutoff)));
    forall q | Holds(t, q)
      ensures s.requests[q].key in t.db.rows
    {
      assert Holds(s, q);
    }
  }

  lemma StepKeepsBinding(c: Config, s: State, step: Step)
    requires Binding(s) && Enabled(s, step) && SparesHolders(s, step)
    ensures Binding(Apply(c, s, step))
  {
    match step
    case Tick(_) =>
      assert forall q :: Holds(Apply(c, s, step), q) ==> Holds(s, q);
    case Arrive(r, _, _) =>
      var t := Apply(c, s, step);
      assert forall q :: Holds(t, q) ==> Holds(s, q) && t.requests[q] == s.requests[q];
    case Look(r) => GotoKeepsBinding(s, r, Looked(Find(s.db, s.requests[r].key)));
    case Decide(r) => DecideKeepsBinding(c, s, r);
    case RunReclaim(r) => ReclaimKeepsBinding(c, s, r);
    case RunInsert(r) => InsertKeepsBinding(c, s, r);
    case LookAgain(r) => GotoKeepsBinding(s, r, LookedAgain(s.requests[r].phase.inserting, Find(s.db, s.requests[r].key)));
    case Resolve(r) => ResolveKeepsBinding(s, r);
    case Send(r, at, statusCode, body) => SendKeepsBinding(c, s, r, at, statusCode, body);
    case LoseRecord(r) => GotoKeepsBinding(s, r, Finished);
    case Sweep(cutoff) => SweepKeepsBinding(s, cutoff);
  }

  lemma DecideKeepsBinding(c: Config, s: State, r: nat)
    requires Binding(s) && Enabled(s, Decide(r))
    ensures Binding(DoDecide(c, s, r))
  {
    assert BackedSnapshot(s.log, s.requests[r].phase);
    match s.requests[r].phase.existing
    case None => GotoKeepsBinding(s, r, Inserting(s.now));
    case Some(row) =>
      if row.hash != s.requests[r].hash { GotoKeepsBinding(s, r, Answered(HashConflict)); }
      else if row.status.Completed? { ReplayKeepsBinding(s, r, row); }
      else if row.status.InProgress? && !IsAbandoned(c, row, s.now) { GotoKeepsBinding(s, r, Answered(StillRunning)); }
      else { GotoKeepsBinding(s, r, Reclaiming(s.now)); }
  }

  lemma ResolveKeepsBinding(s: State, r: nat)
    requires Binding(s) && Enabled(s, Resolve(r))
    ensures Binding(DoResolve(s, r))
  {
    assert BackedSnapshot(s.log, s.requests[r].phase);
    match s.requests[r].phase.winner
    case None => GotoKeepsBinding(s, r, Answered(if s.requests[r].phase.inserting then Rethrown else StillRunning));
    case Some(row) =>
      if row.hash != s.requests[r].hash { GotoKeepsBinding(s, r, Answered(HashConflict)); }
      else if row.status.Completed? { ReplayKeepsBinding(s, r, row); }
      else { GotoKeepsBinding(s, r, Answered(StillRunning)); }
  }

  lemma {:induction false} BindingAt(c: Config, states: seq<State>, steps: seq<Step>, i: nat)
    requires Run(c, states, steps) && SparingRun(states, steps) && i < |states|
    ensures Binding(states[i])
  {
    if i > 0 {
      assert StepAt(c, states, steps, i - 1);
      BindingAt(c, states, steps, i - 1);
      StepKeepsBinding(c, states[i - 1], steps[i - 1]);
    }
  }

  /**
   * Payload binding, late holders included: in every run whose sweeps spare held rows, each holder's row
   * carries the holder's hash, and each replay answers a request with a response that was recorded, on the
   * same row lifetime, by a request with the same hash.
   */
  lemma PayloadBinding(c: Config, states: seq<State>, steps: seq<Step>, i: nat)
    requires Run(c, states, steps) && SparingRun(states, steps) && i < |states|
    ensures HoldersBound(states[i])
    ensures ReplaysBacked(states[i])
  {
    BindingAt(c, states, steps, i);
  }

  // ----- exclusivity -----

  ghost predicate Exclusive(s: State) {
    forall r1, r2 :: Holds(s, r1) && Holds(s, r2) && s.requests[r1].key == s.requests[r2].key ==> r1 == r2
  }

  ghost predicate HoldersLive(s: State) {
    forall r :: Holds(s, r) ==>
      && s.requests[r].key in s.db.rows
      && s.db.rows[s.requests[r].key].status.InProgress?
      && s.db.rows[s.requests[r].key].updatedAt == s.requests[r].phase.since
  }

  ghost predicate PreparedInThePast(s: State) {
    forall r :: r in s.requests ==>
      && (s.requests[r].phase.Reclaiming? ==> s.requests[r].phase.at <= s.now)
      && (s.requests[r].phase.Inserting? ==> s.requests[r].phase.at <= s.now)
  }

  ghost predicate ExpiryCounted(c: Config, db: Db) {
    forall k :: k in db.rows && db.rows[k].status.InProgress? ==> db.rows[k].expiresAt == db.rows[k].updatedAt + c.ttl
  }

  /** As long as a row lives, a success recorded on it is what it shows. */
  ghost predicate SuccessesStand(s: State) {
    forall i :: 0 <= i < |s.log| && s.log[i].Success? ==>
      && s.log[i].rowId < s.db.nextId
      && forall k :: k in s.db.rows && s.db.rows[k].id == s.log[i].rowId ==>
           s.db.rows[k].status.Completed? && ReplayOf(s.db.rows[k]) == s.log[i].response
  }

  ghost predicate OneSuccessPerRow(log: seq<Event>) {
    forall i, j :: 0 <= i < j < |log| && log[i].Success? && log[j].Success? ==> log[i].rowId != log[j].rowId
  }

  ghost predicate Sole(c: Config, s: State) {
    && Exclusive(s) && HoldersLive(s) && PreparedInThePast(s) && ExpiryCounted(c, s.db)
    && SuccessesStand(s) && OneSuccessPerRow(s.log)
  }

  lemma GotoKeepsSole(c: Config, s: State, r: nat, phase: Phase)
    requires Sole(c, s) && r in s.requests && !phase.Holding?
    requires phase.Reclaiming? || phase.Inserting? ==> phase.at <= s.now
    ensures Sole(c, Goto(s, r, phase))
  {
    var t := Goto(s, r, phase);
    assert forall q :: Holds(t, q) ==> Holds(s, q) && t.requests[q] == s.requests[q];
  }

  lemma ReplayKeepsSole(c: Config, s: State, r: nat, row: Row)
    requires Sole(c, s) && r in s.requests
    ensures Sole(c, AnswerReplay(s, r, row))
  {
    GotoKeepsSole(c, s, r, Answered(Replayed(ReplayOf(row))));
  }

  /** A timely holder's row is neither failed nor old enough to match the re-claim's WHERE clause. */
  lemma HeldIsNotClaimable(c: Config, s: State, q: nat, hash: string, at: int)
    requires Sole(c, s) && Timely(c, s) && Holds(s, q) && at <= s.now
    ensures s.requests[q].key in s.db.rows && !Claimable(c, s.db.rows[s.requests[q].key], hash, at)
  {
  }

  lemma ReclaimKeepsSole(c: Config, s: State, r: nat)
    requires RowIdsUnique(s.db) && Sole(c, s) && Timely(c, s) && Enabled(s, RunReclaim(r))
    ensures Sole(c, DoReclaim(c, s, r))
  {
    var t := DoReclaim(c, s, r);
    if t.requests[r].phase.LostRace? {
      GotoKeepsSole(c, s, r, LostRace(false));
    } else {
      forall q | Holds(t, q) && q != r
        ensures Holds(s, q) && t.requests[q] == s.requests[q] && s.requests[q].key != s.requests[r].key
      {
        HeldIsNotClaimable(c, s, q, s.requests[r].hash, s.requests[r].phase.at);
      }
    }
  }

  lemma InsertKeepsSole(c: Config, s: State, r: nat)
    requires RowIdsUnique(s.db) && Sole(c, s) && Enabled(s, RunInsert(r))
    ensures Sole(c, DoInsert(c, s, r))
  {
    var t := DoInsert(c, s, r);
    if t.requests[r].phase.LostRace? {
      GotoKeepsSole(c, s, r, LostRace(true));
    } else {
      forall q | Holds(t, q) && q != r
        ensures Holds(s, q) && t.requests[q] == s.requests[q] && s.requests[q].key != s.requests[r].key
      {
        assert Holds(s, q);
      }
    }
  }

  lemma SendKeepsSole(c: Config, s: State, r: nat, at: int, statusCode: int, body: string)
    requires RowIdsUnique(s.db) && Sole(c, s) && Enabled(s, Send(r, at, statusCode, body))
    ensures Sole(c, DoSend(c, s, r, at, statusCode, body))
  {
    var t := DoSend(c, s, r, at, statusCode, body);
    var k := s.requests[r].key;
    assert Holds(s, r);
    forall q | Holds(t, q)
      ensures Holds(s, q) && t.requests[q] == s.requests[q] && s.requests[q].key != k
    {
      assert q != r;
    }
    assert forall i :: 0 <= i < |s.log| && s.log[i].Success? ==> s.log[i].rowId != s.db.rows[k].id;
    assert forall i :: 0 <= i < |s.log| ==> t.log[i] == s.log[i];
  }

  /** Under a TTL of at least the timeout, no sweep can take the row of a timely holder. */
  lemma TimelySweepsSpareHolders(c: Config, s: State, step: Step)
    requires c.ttl >= c.timeout && Sole(c, s) && Timely(c, s) && Enabled(s, step)
    ensures SparesHolders(s, step)
  {
  }

  lemma SweepKeepsSole(c: Config, s: State, cutoff: int)
    requires Sole(c, s) && SparesHolders(s, Sweep(cutoff))
    ensures Sole(c, s.(db := s.db.(rows := Unswept(s.db.rows, cutoff))))
  {
    var t := s.(db := s.db.(rows := Unswept(s.db.rows, cutoff)));
    forall q | Holds(t, q) ensures Holds(s, q) && s.requests[q].key in t.db.rows {
      assert Holds(s, q);
    }
  }

  lemma StepKeepsSole(c: Config, s: State, step: Step)
    requires c.ttl >= c.timeout && RowIdsUnique(s.db) && Sole(c, s) && Timely(c, s) && Enabled(s, step)
    ensures Sole(c, Apply(c, s, step))
  {
    match step
    case Tick(_) =>
      assert forall q :: Holds(Apply(c, s, step), q) ==> Holds(s, q);
    case Arrive(r, _, _) =>
      var t := Apply(c, s, step);
      assert forall q :: Holds(t, q) ==> Holds(s, q) && t.requests[q] == s.requests[q];
    case Look(r) => GotoKeepsSole(c, s, r, Looked(Find(s.db, s.requests[r].key)));
    case Decide(r) =>
      match s.requests[r].phase.existing {
        case None => GotoKeepsSole(c, s, r, Inserting(s.now));
        case Some(row) =>
          ReplayKeepsSole(c, s, r, row);
          GotoKeepsSole(c, s, r, Answered(HashConflict));
          GotoKeepsSole(c, s, r, Answered(StillRunning));
          GotoKeepsSole(c, s, r, Reclaiming(s.now));
      }
    case RunReclaim(r) => ReclaimKeepsSole(c, s, r);
    case RunInsert(r) => InsertKeepsSole(c, s, r);
    case LookAgain(r) => GotoKeepsSole(c, s, r, LookedAgain(s.requests[r].phase.inserting, Find(s.db, s.requests[r].key)));
    case Resolve(r) =>
      match s.requests[r].phase.winner {
        case None => GotoKeepsSole(c, s, r, Answered(if s.requests[r].phase.inserting then Rethrown else StillRunning));
        case Some(row) =>
          ReplayKeepsSole(c, s, r, row);
          GotoKeepsSole(c, s, r, Answered(HashConflict));
          GotoKeepsSole(c, s, r, Answered(StillRunning));
      }
    case Send(r, at, statusCode, body) => SendKeepsSole(c, s, r, at, statusCode, body);
    case LoseRecord(r) => GotoKeepsSole(c, s, r, Finished);
    case Sweep(cutoff) =>
      TimelySweepsSpareHolders(c, s, step);
      SweepKeepsSole(c, s, cutoff);
  }

  lemma {:induction false} SoleAt(c: Config, states: seq<State>, steps: seq<Step>, i: nat)
    requires c.ttl >= c.timeout && Run(c, states, steps) && TimelyRun(c, states) && i < |states|
    ensures Sole(c, states[i]) && Binding(states[i])
  {
    if i > 0 {
      assert StepAt(c, states, steps, i - 1);
      SoleAt(c, states, steps, i - 1);
      TimelySweepsSpareHolders(c, states[i - 1], steps[i - 1]);
      StepKeepsBinding(c, states[i - 1], steps[i - 1]);
      StepKeepsSole(c, states[i - 1], steps[i - 1]);
    }
  }

  /** At most one request holds a key, and while one does the row is in progress with that request's hash. */
  ghost predicate SingleHolder(s: State) {
    && Exclusive(s)
    && forall r :: Holds(s, r) ==>
         && s.requests[r].key in s.db.rows
         && s.db.rows[s.requests[r].key].status.InProgress?
         && s.db.rows[s.requests[r].key].hash == s.requests[r].hash
  }

  lemma ExclusiveHolder(c: Config, states: seq<State>, steps: seq<Step>, i: nat)
    requires c.ttl >= c.timeout && Run(c, states, steps) && TimelyRun(c, states) && i < |states|
    ensures SingleHolder(states[i])
  {
    SoleAt(c, states, steps, i);
  }

  ghost predicate SameRowSameResponse(log: seq<Event>) {
    forall p, q :: 0 <= p < |log| && 0 <= q < |log| && log[p].rowId == log[q].rowId ==> log[p].response == log[q].response
  }

  /** Every replay in a timely run returns the one success ever recorded on its row. */
  lemma OneResponsePerRow(c: Config, states: seq<State>, steps: seq<Step>, i: nat)
    requires c.ttl >= c.timeout && Run(c, states, steps) && TimelyRun(c, states) && i < |states|
    ensures OneSuccessPerRow(states[i].log)
    ensures ReplaysBacked(states[i])
    ensures SameRowSameResponse(states[i].log)
  {
    SoleAt(c, states, steps, i);
    var log := states[i].log;
    forall p, q | 0 <= p < |log| && 0 <= q < |log| && log[p].rowId == log[q].rowId
      ensures log[p].response == log[q].response
    {
      var p' := BackingSuccess(states[i], p);
      var q' := BackingSuccess(states[i], q);
      assert p' == q';
    }
  }

  lemma BackingSuccess(s: State, p: nat) returns (i: nat)
    requires ReplaysBacked(s) && p < |s.log|
    ensures i < |s.log| && s.log[i].Success? && s.log[i].rowId == s.log[p].rowId && s.log[i].response == s.log[p].response
  {
    if s.log[p].Success? {
      i := p;
    } else {
      assert Recorded(s.log, s.log[p].rowId, s.log[p].hash, s.log[p].response);
      i :| 0 <= i < |s.log| && s.log[i].Success? && s.log[i].rowId == s.log[p].rowId
        && s.log[i].hash == s.log[p].hash && s.log[i].response == s.log[p].response;
    }
  }

  // ----- row lifetimes -----

  /** Every row after a step is either brand new or the same row, under the same key and hash, as before it. */
  ghost predicate Descends(before: Db, after: Db) {
    && before.nextId <= after.nextId
    && forall k :: k in after.rows ==>
         || after.rows[k].id == before.nextId
         || (k in before.rows && after.rows[k].id == before.rows[k].id && after.rows[k].hash == before.rows[k].hash)
  }

  /** Writing one row under its own key and id, or a fresh row under a free key. */
  lemma PutDescends(db: Db, k: Key, row: Row, nextId: nat)
    requires RowIdsUnique(db) && db.nextId <= nextId
    requires if k in db.rows then row.id == db.rows[k].id && row.hash == db.rows[k].hash
             else row.id == db.nextId && nextId == db.nextId + 1
    ensures RowIdsUnique(Db(db.rows[k := row], nextId)) && Descends(db, Db(db.rows[k := row], nextId))
  {
  }

  lemma StepDescends(c: Config, s: State, step: Step)
    requires RowIdsUnique(s.db) && Enabled(s, step)
    ensures RowIdsUnique(Apply(c, s, step).db) && Descends(s.db, Apply(c, s, step).db)
  {
    var after := Apply(c, s, step).db;
    if after != s.db {
      match step
      case RunReclaim(r) =>
        var k := s.requests[r].key;
        PutDescends(s.db, k, after.rows[k], s.db.nextId);
      case RunInsert(r) =>
        var k := s.requests[r].key;
        PutDescends(s.db, k, after.rows[k], s.db.nextId + 1);
      case Send(r, _, _, _) =>
        var k := s.requests[r].key;
        PutDescends(s.db, k, after.rows[k], s.db.nextId);
      case Sweep(_) =>
    }
  }

  lemma {:induction false} RowIdsUniqueAt(c: Config, states: seq<State>, steps: seq<Step>, i: nat)
    requires Run(c, states, steps) && i < |states|
    ensures RowIdsUnique(states[i].db)
  {
    if i > 0 {
      assert StepAt(c, states, steps, i - 1);
      RowIdsUniqueAt(c, states, steps, i - 1);
      StepDescends(c, states[i - 1], steps[i - 1]);
    }
  }

  lemma DescendsAt(c: Config, states: seq<State>, steps: seq<Step>, i: nat)
    requires Run(c, states, steps) && i < |steps|
    ensures RowIdsUnique(states[i].db) && Descends(states[i].db, states[i + 1].db)
  {
    assert StepAt(c, states, steps, i);
    RowIdsUniqueAt(c, states, steps, i);
    StepDescends(c, states[i], steps[i]);
  }

  /** In every run whatever, a row keeps its key and its request hash for as long as it lives. */
  lemma {:induction false} HashNeverChanges(c: Config, states: seq<State>, steps: seq<Step>, i: nat, j: nat, k: Key, k': Key)
    requires Run(c, states, steps) && i <= j < |states|
    requires k in states[i].db.rows && k' in states[j].db.rows && states[i].db.rows[k].id == states[j].db.rows[k'].id
    ensures k == k' && states[i].db.rows[k].hash == states[j].db.rows[k'].hash
    decreases j
  {
    RowIdsUniqueAt(c, states, steps, i);
    if i < j {
      NextIdGrows(c, states, steps, i, j - 1);
      DescendsAt(c, states, steps, j - 1);
      HashNeverChanges(c, states, steps, i, j - 1, k, k');
    }
  }

  lemma {:induction false} NextIdGrows(c: Config, states: seq<State>, steps: seq<Step>, i: nat, j: nat)
    requires Run(c, states, steps) && i <= j < |states|
    ensures states[i].db.nextId <= states[j].db.nextId
    decreases j
  {
    if i < j {
      NextIdGrows(c, states, steps, i, j - 1);
      DescendsAt(c, states, steps, j - 1);
    }
  }

  lemma CompletedSurvivesStep(c: Config, s: State, step: Step, k: Key)
    requires Sole(c, s) && Enabled(s, step)
    requires k in s.db.rows && s.db.rows[k].status.Completed? && k in Apply(c, s, step).db.rows
    ensures Apply(c, s, step).db.rows[k] == s.db.rows[k]
  {
    if step.Send? {
      assert Holds(s, step.r);
    }
  }

  /** A row present at two moments is present, under the same key, at the moment before the second. */
  lemma PresentInBetween(c: Config, states: seq<State>, steps: seq<Step>, i: nat, j: nat, k: Key)
    requires Run(c, states, steps) && i < j < |states|
    requires k in states[i].db.rows && k in states[j].db.rows && states[i].db.rows[k].id == states[j].db.rows[k].id
    ensures k in states[j - 1].db.rows && states[j - 1].db.rows[k].id == states[i].db.rows[k].id
  {
    NextIdGrows(c, states, steps, i, j - 1);
    RowIdsUniqueAt(c, states, steps, i);
    DescendsAt(c, states, steps, j - 1);
  }

  lemma CompletedSurvivesAt(c: Config, states: seq<State>, steps: seq<Step>, i: nat, k: Key)
    requires c.ttl >= c.timeout && Run(c, states, steps) && TimelyRun(c, states) && i < |steps|
    requires k in states[i].db.rows && states[i].db.rows[k].status.Completed? && k in states[i + 1].db.rows
    ensures states[i + 1].db.rows[k] == states[i].db.rows[k]
  {
    assert StepAt(c, states, steps, i);
    SoleAt(c, states, steps, i);
    CompletedSurvivesStep(c, states[i], steps[i], k);
  }

  /** In a timely run a completed row keeps its status code and body, and everything else, until it is swept. */
  lemma {:induction false} CompletedUntilSwept(c: Config, states: seq<State>, steps: seq<Step>, i: nat, j: nat, k: Key)
    requires c.ttl >= c.timeout && Run(c, states, steps) && TimelyRun(c, states) && i <= j < |states|
    requires k in states[i].db.rows && states[i].db.rows[k].status.Completed?
    requires k in states[j].db.rows && states[i].db.rows[k].id == states[j].db.rows[k].id
    ensures states[i].db.rows[k] == states[j].db.rows[k]
    decreases j
  {
    if i < j {
      PresentInBetween(c, states, steps, i, j, k);
      CompletedUntilSwept(c, states, steps, i, j - 1, k);
      CompletedSurvivesAt(c, states, steps, j - 1, k);
    }
  }

  // ----- the premises are exact -----

  lemma Extend(c: Config, states: seq<State>, steps: seq<Step>, step: Step, t: State)
      returns (states': seq<State>, steps': seq<Step>)
    requires Run(c, states, steps)
    requires Enabled(states[|steps|], step) && t == Apply(c, states[|steps|], step)
    ensures Run(c, states', steps') && states'[|steps'|] == t
    ensures TimelyRun(c, states) && Timely(c, t) ==> TimelyRun(c, states')
  {
    states', steps' := states + [t], steps + [step];
    forall i | 0 <= i < |steps'| ensures StepAt(c, states', steps', i) {
      if i < |steps| {
        assert StepAt(c, states, steps, i);
      }
    }
  }

  /** A reservation inserted at time 0 and still held after the TTL has passed. */
  lemma HeldPastItsTtl(c: Config, k: Key) returns (states: seq<State>, steps: seq<Step>)
    requires ValidConfig(c)
    ensures Run(c, states, steps) && (c.ttl < c.timeout ==> TimelyRun(c, states))
    ensures states[|steps|] == State(c.ttl + 1, Db(map[k := InsertedRow(c, 0, "h", 0)], 1), map[0 := Request(k, "h", Holding(0, 0))], [])
  {
    states, steps := [Init], [];
    states, steps := Extend(c, states, steps, Arrive(0, k, "h"), State(0, Db(map[], 0), map[0 := Request(k, "h", Arrived)], []));
    states, steps := Extend(c, states, steps, Look(0), State(0, Db(map[], 0), map[0 := Request(k, "h", Looked(None))], []));
    states, steps := Extend(c, states, steps, Decide(0), State(0, Db(map[], 0), map[0 := Request(k, "h", Inserting(0))], []));
    var s4 := State(0, Db(map[k := InsertedRow(c, 0, "h", 0)], 1), map[0 := Request(k, "h", Holding(0, 0))], []);
    states, steps := Extend(c, states, steps, RunInsert(0), s4);
    states, steps := Extend(c, states, steps, Tick(c.ttl + 1), s4.(now := c.ttl + 1));
  }

  /** ... and swept, and its key taken by a second request with hash `h2` while the first still runs. */
  lemma SweptAndRetaken(c: Config, k: Key, h2: string) returns (states: seq<State>, steps: seq<Step>)
    requires ValidConfig(c)
    ensures Run(c, states, steps) && (c.ttl < c.timeout ==> TimelyRun(c, states))
    ensures states[|steps|] == State(c.ttl + 1, Db(map[k := InsertedRow(c, 1, h2, c.ttl + 1)], 2),
              map[0 := Request(k, "h", Holding(0, 0)), 1 := Request(k, h2, Holding(1, c.ttl + 1))], [])
  {
    hide Run, TimelyRun;
    var late, held := c.ttl + 1, Request(k, "h", Holding(0, 0));
    states, steps := HeldPastItsTtl(c, k);
    assert Unswept(map[k := InsertedRow(c, 0, "h", 0)], late) == map[];
    var s := State(late, Db(map[], 1), map[0 := held], []);
    states, steps := Extend(c, states, steps, Sweep(late), s);
    states, steps := Extend(c, states, steps, Arrive(1, k, h2), s.(requests := map[0 := held, 1 := Request(k, h2, Arrived)]));
    states, steps := Extend(c, states, steps, Look(1), s.(requests := map[0 := held, 1 := Request(k, h2, Looked(None))]));
    states, steps := Extend(c, states, steps, Decide(1), s.(requests := map[0 := held, 1 := Request(k, h2, Inserting(late))]));
    states, steps := Extend(c, states, steps, RunInsert(1),
      State(late, Db(map[k := InsertedRow(c, 1, h2, late)], 2), map[0 := held, 1 := Request(k, h2, Holding(1, late))], []));
  }

  /** With a TTL below the timeout the sweep frees a key under a holder that is not late at all. */
  lemma ShortTtlAdmitsTwoHolders(c: Config) returns (states: seq<State>, steps: seq<Step>)
    requires ValidConfig(c) && c.ttl < c.timeout
    ensures Run(c, states, steps) && TimelyRun(c, states) && !Exclusive(states[|steps|])
  {
    states, steps := SweptAndRetaken(c, Key("user", "settlement.execute", "key"), "h");
    var t := states[|steps|];
    assert Holds(t, 0) && Holds(t, 1);
  }

  /**
   * Under any configuration, a sweep that takes a held row lets the late holder's response reach a request
   * with a different hash: `record` writes by key, so sparing held rows is needed for payload binding.
   */
  lemma SweptHolderMisanswers(c: Config) returns (states: seq<State>, steps: seq<Step>)
    requires ValidConfig(c)
    ensures Run(c, states, steps) && !ReplaysBacked(states[|steps|])
  {
    hide Run, TimelyRun;
    var k, late, answer := Key("user", "settlement.execute", "key"), c.ttl + 1, Response(202, "{}");
    states, steps := SweptAndRetaken(c, k, "h2");
    var done, held := Request(k, "h", Finished), Request(k, "h2", Holding(1, late));
    var row := RecordedRow(c, InsertedRow(c, 1, "h2", late), late, 202, "{}");
    var s := State(late, Db(map[k := row], 2), map[0 := done, 1 := held], [Success(1, 0, "h", answer)]);
    states, steps := Extend(c, states, steps, Send(0, late, 202, "{}"), s);
    states, steps := Extend(c, states, steps, Arrive(2, k, "h2"), s.(requests := map[0 := done, 1 := held, 2 := Request(k, "h2", Arrived)]));
    states, steps := Extend(c, states, steps, Look(2), s.(requests := map[0 := done, 1 := held, 2 := Request(k, "h2", Looked(Some(row)))]));
    var t := s.(requests := map[0 := done, 1 := held, 2 := Request(k, "h2", Answered(Replayed(answer)))],
                log := [Success(1, 0, "h", answer), Replay(1, 2, "h2", answer)]);
    states, steps := Extend(c, states, steps, Decide(2), t);
    assert t.log[1].Replay? && !Recorded(t.log, 1, "h2", answer);
  }

  ghost predicate AlwaysSingleHolder(c: Config) {
    forall states, steps :: Run(c, states, steps) && TimelyRun(c, states) ==> forall i :: 0 <= i < |states| ==> SingleHolder(states[i])
  }

  /** Timely runs are exclusive exactly when the TTL is at least the in-progress timeout. */
  lemma ExclusiveIffTtlCoversTimeout(c: Config)
    requires ValidConfig(c)
    ensures AlwaysSingleHolder(c) <==> c.ttl >= c.timeout
  {
    if c.ttl >= c.timeout {
      forall states, steps, i | Run(c, states, steps) && TimelyRun(c, states) && 0 <= i < |states|
        ensures SingleHolder(states[i])
      {
        ExclusiveHolder(c, states, steps, i);
      }
    } else {
      var states, steps := ShortTtlAdmitsTwoHolders(c);
      assert !SingleHolder(states[|steps|]);
    }
  }

  // ----- from any state on -----

  /** `states` is what `steps` make of state `s`. */
  ghost predicate Continues(c: Config, s: State, states: seq<State>, steps: seq<Step>) {
    && |states| == |steps| + 1
    && states[0] == s
    && forall i :: 0 <= i < |steps| ==> StepAt(c, states, steps, i)
  }

  /** A continuation in which no step is a sweep. */
  ghost predicate NoSweep(steps: seq<Step>) {
    forall i :: 0 <= i < |steps| ==> !steps[i].Sweep?
  }

  lemma Further(c: Config, s: State, states: seq<State>, steps: seq<Step>, step: Step, t: State)
      returns (states': seq<State>, steps': seq<Step>)
    requires Continues(c, s, states, steps) && NoSweep(steps) && !step.Sweep?
    requires Enabled(states[|steps|], step) && t == Apply(c, states[|steps|], step)
    ensures Continues(c, s, states', steps') && NoSweep(steps') && |steps'| == |steps| + 1 && states'[|steps'|] == t
  {
    hide Enabled, Apply;
    states', steps' := states + [t], steps + [step];
    forall i | 0 <= i < |steps'| ensures StepAt(c, states', steps', i) {
      if i < |steps| { assert StepAt(c, states, steps, i); }
    }
  }

  /** A request that comes for a free key gets it in four steps. */
  lemma TakesFreeKey(c: Config, s: State, r: nat, k: Key, hash: string) returns (states: seq<State>, steps: seq<Step>)
    requires k !in s.db.rows && r !in s.requests
    ensures Continues(c, s, states, steps) && NoSweep(steps) && |steps| == 4
    ensures states[4] == State(s.now, Db(s.db.rows[k := InsertedRow(c, s.db.nextId, hash, s.now)], s.db.nextId + 1),
                               s.requests[r := Request(k, hash, Holding(s.db.nextId, s.now))], s.log)
  {
    hide Continues, InsertedRow;
    states, steps := [s], [];
    assert Continues(c, s, states, steps) by { StartsHere(c, s); }
    var t1 := s.(requests := s.requests[r := Request(k, hash, Arrived)]);
    states, steps := Further(c, s, states, steps, Arrive(r, k, hash), t1);
    var t2 := s.(requests := s.requests[r := Request(k, hash, Looked(None))]);
    assert t1.requests[r := Request(k, hash, Looked(None))] == t2.requests;
    states, steps := Further(c, s, states, steps, Look(r), t2);
    var t3 := s.(requests := s.requests[r := Request(k, hash, Inserting(s.now))]);
    assert t2.requests[r := Request(k, hash, Inserting(s.now))] == t3.requests;
    states, steps := Further(c, s, states, steps, Decide(r), t3);
    var held := Request(k, hash, Holding(s.db.nextId, s.now));
    assert t3.requests[r := held] == s.requests[r := held];
    states, steps := Further(c, s, states, steps, RunInsert(r),
      State(s.now, Db(s.db.rows[k := InsertedRow(c, s.db.nextId, hash, s.now)], s.db.nextId + 1), s.requests[r := held], s.log));
  }

  lemma StartsHere(c: Config, s: State)
    ensures Continues(c, s, [s], [])
  {
  }

  /** A retry that comes for a failed or abandoned row of its own hash takes it over in four steps. */
  lemma TakesUnsettledRow(c: Config, s: State, r: nat, k: Key, hash: string) returns (states: seq<State>, steps: seq<Step>)
    requires k in s.db.rows && r !in s.requests && !Settles(c, s.db.rows[k], hash, s.now)
    ensures Continues(c, s, states, steps) && NoSweep(steps) && |steps| == 4
    ensures states[4] == s.(db := s.db.(rows := s.db.rows[k := ReclaimedRow(c, s.db.rows[k], s.now)]),
                            requests := s.requests[r := Request(k, hash, Holding(s.db.rows[k].id, s.now))])
  {
    hide Continues, ReclaimedRow;
    states, steps := [s], [];
    assert Continues(c, s, states, steps) by { StartsHere(c, s); }
    var row := s.db.rows[k];
    ClaimableIffUnsettled(c, row, hash, s.now);
    var t1 := s.(requests := s.requests[r := Request(k, hash, Arrived)]);
    states, steps := Further(c, s, states, steps, Arrive(r, k, hash), t1);
    var t2 := s.(requests := s.requests[r := Request(k, hash, Looked(Some(row)))]);
    assert t1.requests[r := Request(k, hash, Looked(Some(row)))] == t2.requests;
    states, steps := Further(c, s, states, steps, Look(r), t2);
    var t3 := s.(requests := s.requests[r := Request(k, hash, Reclaiming(s.now))]);
    assert t2.requests[r := Request(k, hash, Reclaiming(s.now))] == t3.requests;
    states, steps := Further(c, s, states, steps, Decide(r), t3);
    var held := Request(k, hash, Holding(row.id, s.now));
    assert t3.requests[r := held] == s.requests[r := held];
    states, steps := Further(c, s, states, steps, RunReclaim(r),
      s.(db := s.db.(rows := s.db.rows[k := ReclaimedRow(c, row, s.now)]), requests := s.requests[r := held]));
  }

  // ----- an overdue holder -----

  /** A holder's row is in progress under its hash and stamped with its claim, or it is gone. */
  ghost predicate LiveOrGone(s: State) {
    forall r :: Holds(s, r) && s.requests[r].key in s.db.rows ==>
      && s.db.rows[s.requests[r].key].status.InProgress?
      && s.db.rows[s.requests[r].key].hash == s.requests[r].hash
      && s.db.rows[s.requests[r].key].updatedAt == s.requests[r].phase.since
  }

  lemma StepKeepsLiveOrGone(c: Config, s: State, step: Step)
    requires LiveOrGone(s) && Exclusive(s) && Enabled(s, step) && Exclusive(Apply(c, s, step))
    ensures LiveOrGone(Apply(c, s, step))
  {
    hide RecordedRow, ReplayOf, IsSuccess, IsAbandoned;
    var t := Apply(c, s, step);
    forall q | Holds(t, q) && t.requests[q].key in t.db.rows
      ensures t.db.rows[t.requests[q].key].status.InProgress? && t.db.rows[t.requests[q].key].hash == t.requests[q].hash
      ensures t.db.rows[t.requests[q].key].updatedAt == t.requests[q].phase.since
    {
      if Holds(s, q) {
        if step.Send? { assert Holds(s, step.r); }
        if step.RunReclaim? || step.RunInsert? { assert Holds(t, step.r) ==> step.r == q || t.requests[step.r].key != t.requests[q].key; }
      }
    }
  }

  lemma {:induction false} LiveOrGoneAt(c: Config, states: seq<State>, steps: seq<Step>, i: nat)
    requires Run(c, states, steps) && i < |states| && forall j :: 0 <= j <= i ==> Exclusive(states[j])
    ensures LiveOrGone(states[i])
  {
    if i > 0 {
      LiveOrGoneAt(c, states, steps, i - 1);
      assert StepAt(c, states, steps, i - 1);
      StepKeepsLiveOrGone(c, states[i - 1], steps[i - 1]);
    }
  }

  /**
   * Being timely is needed as well as enough: in every run, from every state with an overdue holder, either two
   * requests have already held one key at once, or a retry joins the holder in four steps.
   */
  lemma OverdueHolderIsJoined(c: Config, states: seq<State>, steps: seq<Step>, i: nat, q: nat, r: nat)
      returns (more: seq<State>, moreSteps: seq<Step>)
    requires Run(c, states, steps) && i < |states| && Holds(states[i], q) && r !in states[i].requests
    requires states[i].now > states[i].requests[q].phase.since + c.timeout
    ensures || (exists j :: 0 <= j <= i && !Exclusive(states[j]))
            || (&& Continues(c, states[i], more, moreSteps) && |moreSteps| == 4
                && Holds(more[4], q) && Holds(more[4], r) && more[4].requests[q].key == more[4].requests[r].key
                && !Exclusive(more[4]))
  {
    more, moreSteps := [], [];
    if forall j :: 0 <= j <= i ==> Exclusive(states[j]) {
      LiveOrGoneAt(c, states, steps, i);
      hide Run, Continues;
      var s := states[i];
      var k, hash := s.requests[q].key, s.requests[q].hash;
      if k in s.db.rows {
        more, moreSteps := TakesUnsettledRow(c, s, r, k, hash);
      } else {
        more, moreSteps := TakesFreeKey(c, s, r, k, hash);
      }
      assert Holds(more[4], q) && Holds(more[4], r);
    }
  }

  // ----- after a response was recorded -----

  /** From the state that a failed response leaves, a retry with the row's hash holds the key, on the same row, in four steps. */
  lemma FailedRowIsTakenOver(c: Config, s: State, q: nat, at: int, statusCode: int, body: string, r: nat)
      returns (states: seq<State>, steps: seq<Step>)
    requires Enabled(s, Send(q, at, statusCode, body)) && (statusCode < 200 || statusCode >= 300)
    requires s.requests[q].key in s.db.rows && r !in s.requests
    ensures var k := s.requests[q].key;
            var row := s.db.rows[k];
            && Continues(c, Apply(c, s, Send(q, at, statusCode, body)), states, steps) && |steps| == 4
            && states[4].now == s.now && states[4].log == s.log && !Holds(states[4], q)
            && Is(states[4], r, Request(k, row.hash, Holding(row.id, s.now)))
            && Find(states[4].db, k) == Some(Row(row.id, row.hash, InProgress, None, None, s.now, s.now + c.ttl))
  {
    var t := Apply(c, s, Send(q, at, statusCode, body));
    var k := s.requests[q].key;
    FailureIsClaimable(c, s.db.rows[k], at, statusCode, body);
    ClaimableIffUnsettled(c, t.db.rows[k], t.db.rows[k].hash, t.now);
    hide Continues;
    states, steps := TakesUnsettledRow(c, t, r, k, t.db.rows[k].hash);
  }

  /**
   * A response that is no success frees its key at once: in every run that spares held rows, from the very state it
   * leaves, a retry with the same key and body holds the key in four steps during which no time passes.
   */
  lemma FailureIsRetried(c: Config, states: seq<State>, steps: seq<Step>, i: nat, q: Request, r: nat)
      returns (more: seq<State>, moreSteps: seq<Step>)
    requires Run(c, states, steps) && SparingRun(states, steps) && i < |steps| && r !in states[i].requests
    requires steps[i].Send? && (steps[i].statusCode < 200 || steps[i].statusCode >= 300) && Is(states[i], steps[i].r, q)
    ensures Continues(c, states[i + 1], more, moreSteps) && |moreSteps| == 4
    ensures more[4].now == states[i].now && !Holds(more[4], steps[i].r)
    ensures q.phase.Holding? && Is(more[4], r, Request(q.key, q.hash, Holding(q.phase.rowId, states[i].now)))
  {
    BindingAt(c, states, steps, i);
    assert StepAt(c, states, steps, i);
    assert Holds(states[i], steps[i].r);
    hide Run, Continues, SparingRun;
    more, moreSteps := FailedRowIsTakenOver(c, states[i], steps[i].r, steps[i].at, steps[i].statusCode, steps[i].body, r);
  }

  /** A recorded success as it stands on its row. */
  ghost predicate Stands(c: Config, s: State, k: Key, hash: string, at: int, response: Response) {
    && k in s.db.rows && s.db.rows[k].status.Completed? && s.db.rows[k].hash == hash
    && Shows(s.db.rows[k], response) && s.db.rows[k].expiresAt == at + c.ttl
  }

  lemma SentStands(c: Config, states: seq<State>, steps: seq<Step>, i: nat, q: Request)
    requires c.ttl >= c.timeout && Run(c, states, steps) && TimelyRun(c, states) && i < |steps|
    requires steps[i].Send? && 200 <= steps[i].statusCode < 300 && Is(states[i], steps[i].r, q)
    ensures Stands(c, states[i + 1], q.key, q.hash, steps[i].at, Response(steps[i].statusCode, steps[i].body))
  {
    SoleAt(c, states, steps, i);
    assert StepAt(c, states, steps, i);
    var s, r := states[i], steps[i].r;
    assert Holds(s, r);
    SuccessSettles(c, s.db.rows[s.requests[r].key], steps[i].at, steps[i].statusCode, steps[i].body);
  }

  lemma StepKeepsStanding(c: Config, s: State, step: Step, k: Key, hash: string, at: int, response: Response)
    requires Sole(c, s) && Enabled(s, step) && Stands(c, s, k, hash, at, response) && s.now <= at + c.ttl
    ensures Stands(c, Apply(c, s, step), k, hash, at, response) && s.now <= Apply(c, s, step).now
  {
    hide Sole;
    if k in Apply(c, s, step).db.rows { CompletedSurvivesStep(c, s, step, k); }
  }

  lemma {:induction false} StandsUntil(c: Config, states: seq<State>, steps: seq<Step>, i: nat, j: nat, k: Key, hash: string, at: int, response: Response)
    requires c.ttl >= c.timeout && Run(c, states, steps) && TimelyRun(c, states) && i <= j < |states|
    requires Stands(c, states[i], k, hash, at, response) && states[j].now <= at + c.ttl
    ensures Stands(c, states[j], k, hash, at, response)
    decreases j
  {
    if i < j {
      assert StepAt(c, states, steps, j - 1);
      SoleAt(c, states, steps, j - 1);
      hide Sole, Stands, Run, TimelyRun;
      StandsUntil(c, states, steps, i, j - 1, k, hash, at, response);
      StepKeepsStanding(c, states[j - 1], steps[j - 1], k, hash, at, response);
    }
  }

  /** From the read on a request is as the read left it, or has decided. */
  lemma {:induction false} ReadIsKept(c: Config, states: seq<State>, steps: seq<Step>, i: nat, j: nat, r: nat)
    requires Run(c, states, steps) && i <= j < |states| && r in states[i].requests && states[i].requests[r].phase.Looked?
    ensures r in states[j].requests
    ensures states[j].requests[r] == states[i].requests[r]
            || (!states[j].requests[r].phase.Arrived? && !states[j].requests[r].phase.Looked?)
    decreases j
  {
    if i < j {
      ReadIsKept(c, states, steps, i, j - 1, r);
      assert StepAt(c, states, steps, j - 1);
    }
  }

  /**
   * In a timely run a success answers for its whole retention: whoever comes with the key and reads the row not
   * later than the TTL after the response was recorded is, when it decides, sent that very status code and body if
   * its body is the same, and refused if it is another.
   */
  lemma SuccessIsReplayed(c: Config, states: seq<State>, steps: seq<Step>, i: nat, j: nat, m: nat, q: Request, r: Request)
    requires c.ttl >= c.timeout && Run(c, states, steps) && TimelyRun(c, states) && i < j < m < |steps|
    requires steps[i].Send? && 200 <= steps[i].statusCode < 300 && Is(states[i], steps[i].r, q)
    requires steps[j].Look? && Is(states[j], steps[j].r, r) && r.key == q.key && states[j].now <= steps[i].at + c.ttl
    requires steps[m] == Decide(steps[j].r)
    ensures Is(states[m + 1], steps[j].r, r.(phase :=
              Answered(if r.hash == q.hash then Replayed(Response(steps[i].statusCode, steps[i].body)) else HashConflict)))
  {
    SentStands(c, states, steps, i, q);
    StandsUntil(c, states, steps, i + 1, j, q.key, q.hash, steps[i].at, Response(steps[i].statusCode, steps[i].body));
    assert StepAt(c, states, steps, j) && StepAt(c, states, steps, m);
    ReadIsKept(c, states, steps, j + 1, m, steps[j].r);
    hide Run, TimelyRun;
  }

  // ----- a sweep that takes a held row -----

  /** Row ids in use, in the log and in what requests have read, are old ones. */
  ghost predicate IdsAreOld(s: State) {
    && ValidDb(s.db)
    && (forall i :: 0 <= i < |s.log| ==> s.log[i].rowId < s.db.nextId)
    && (forall r :: r in s.requests ==> OldSnapshot(s.requests[r].phase, s.db.nextId))
  }

  predicate OldSnapshot(phase: Phase, nextId: nat) {
    && (phase.Looked? && phase.existing.Some? ==> phase.existing.value.id < nextId)
    && (phase.LookedAgain? && phase.winner.Some? ==> phase.winner.value.id < nextId)
  }

  lemma StepKeepsIdsOld(c: Config, s: State, step: Step)
    requires IdsAreOld(s) && Enabled(s, step)
    ensures IdsAreOld(Apply(c, s, step))
  {
    var t := Apply(c, s, step);
    hide Claimable, IsAbandoned, ReplayOf, IsSuccess;
    forall r | r in t.requests ensures OldSnapshot(t.requests[r].phase, t.db.nextId) {
      if r in s.requests { assert OldSnapshot(s.requests[r].phase, s.db.nextId); }
    }
  }

  lemma {:induction false} IdsAreOldAt(c: Config, states: seq<State>, steps: seq<Step>, i: nat)
    requires Run(c, states, steps) && i < |states|
    ensures IdsAreOld(states[i])
  {
    if i > 0 {
      IdsAreOldAt(c, states, steps, i - 1);
      assert StepAt(c, states, steps, i - 1);
      StepKeepsIdsOld(c, states[i - 1], steps[i - 1]);
    }
  }

  lemma {:induction false} FreshRequest(taken: set<nat>) returns (r: nat)
    ensures forall x :: x in taken ==> x < r
    decreases |taken|
  {
    r := 0;
    if taken != {} {
      var x :| x in taken;
      var rest := FreshRequest(taken - {x});
      r := if rest <= x then x + 1 else rest;
      assert forall y :: y in taken ==> y == x || y in taken - {x};
    }
  }

  /** A late holder's success, recorded on the row that now has its key, is replayed to a request with that row's hash. */
  lemma LateSuccessIsReplayed(c: Config, s: State, q: nat, r: nat, row: Row) returns (states: seq<State>, steps: seq<Step>)
    requires Holds(s, q) && r !in s.requests && s.requests[q].key in s.db.rows && s.db.rows[s.requests[q].key] == row
    requires IdsAreNot(s.log, row.id) && row.hash != s.requests[q].hash
    ensures Continues(c, s, states, steps) && NoSweep(steps) && !ReplaysBacked(states[|steps|])
  {
    hide Continues;
    var k, hash, answer := s.requests[q].key, s.requests[q].hash, Response(200, "{}");
    var done := RecordedRow(c, row, s.now, 200, "{}");
    assert done.hash == row.hash && done.id == row.id && done.status.Completed? && ReplayOf(done) == answer;
    hide RecordedRow, ReplayOf;
    states, steps := [s], [];
    assert Continues(c, s, states, steps) by { StartsHere(c, s); }
    var log := s.log + [Success(row.id, q, hash, answer)];
    var finished := s.requests[q := Request(k, hash, Finished)];
    var t1 := State(s.now, s.db.(rows := s.db.rows[k := done]), finished, log);
    states, steps := Further(c, s, states, steps, Send(q, s.now, 200, "{}"), t1);
    var t2 := t1.(requests := finished[r := Request(k, row.hash, Arrived)]);
    states, steps := Further(c, s, states, steps, Arrive(r, k, row.hash), t2);
    var t3 := t1.(requests := finished[r := Request(k, row.hash, Looked(Some(done)))]);
    assert t2.requests[r := Request(k, row.hash, Looked(Some(done)))] == t3.requests;
    states, steps := Further(c, s, states, steps, Look(r), t3);
    var last := Request(k, row.hash, Answered(Replayed(answer)));
    var t4 := t1.(requests := finished[r := last], log := log + [Replay(row.id, r, row.hash, answer)]);
    assert t3.requests[r := last] == t4.requests;
    states, steps := Further(c, s, states, steps, Decide(r), t4);
    NotRecorded(s.log, row.id, row.hash, q, hash, r, answer);
    assert t4.log[|s.log| + 1] == Replay(row.id, r, row.hash, answer);
  }

  ghost predicate IdsAreNot(log: seq<Event>, id: nat) {
    forall i :: 0 <= i < |log| ==> log[i].rowId != id
  }

  lemma NotRecorded(log: seq<Event>, id: nat, h: string, q: nat, hash: string, r: nat, answer: Response)
    requires IdsAreNot(log, id) && h != hash
    ensures !Recorded(log + [Success(id, q, hash, answer)] + [Replay(id, r, h, answer)], id, h, answer)
  {
  }

  /** A sweep that takes a held row can be followed, without another sweep, by a replay to a request with another hash. */
  lemma UnsparingSweepMisanswers(c: Config, s: State, cutoff: int, q: nat) returns (states: seq<State>, steps: seq<Step>)
    requires IdsAreOld(s) && Enabled(s, Sweep(cutoff)) && Holds(s, q)
    requires s.requests[q].key in s.db.rows && s.db.rows[s.requests[q].key].expiresAt < cutoff
    ensures Continues(c, Apply(c, s, Sweep(cutoff)), states, steps) && NoSweep(steps) && !ReplaysBacked(states[|steps|])
  {
    var t := Apply(c, s, Sweep(cutoff));
    var k, hash := s.requests[q].key, s.requests[q].hash;
    var r := FreshRequest(s.requests.Keys);
    var other := hash + "x";
    assert |other| == |hash| + 1;
    var first, firstSteps := TakesFreeKey(c, t, r, k, other);
    var u := first[4];
    assert Holds(u, q) && r + 1 !in u.requests;
    var second, secondSteps := LateSuccessIsReplayed(c, u, q, r + 1, u.db.rows[k]);
    states, steps := Joined(c, t, first, firstSteps, second, secondSteps);
  }

  lemma Joined(c: Config, s: State, a: seq<State>, aSteps: seq<Step>, b: seq<State>, bSteps: seq<Step>)
      returns (states: seq<State>, steps: seq<Step>)
    requires Continues(c, s, a, aSteps) && Continues(c, a[|aSteps|], b, bSteps) && NoSweep(aSteps) && NoSweep(bSteps)
    ensures Continues(c, s, states, steps) && NoSweep(steps) && states[|steps|] == b[|bSteps|]
  {
    hide Enabled, Apply;
    states, steps := a + b[1..], aSteps + bSteps;
    forall i | 0 <= i < |steps| ensures StepAt(c, states, steps, i) {
      if i < |aSteps| {
        assert StepAt(c, a, aSteps, i);
      } else {
        assert StepAt(c, b, bSteps, i - |aSteps|);
        assert states[i] == b[i - |aSteps|] && states[i + 1] == b[i + 1 - |aSteps|];
      }
    }
  }

  lemma {:induction false} BindingContinues(c: Config, s: State, states: seq<State>, steps: seq<Step>, i: nat)
    requires Binding(s) && Continues(c, s, states, steps) && SparingRun(states, steps) && i < |states|
    ensures Binding(states[i])
  {
    if i > 0 {
      BindingContinues(c, s, states, steps, i - 1);
      assert StepAt(c, states, steps, i - 1);
      StepKeepsBinding(c, states[i - 1], steps[i - 1]);
    }
  }

  /** However things go on after state `s`, as long as no held row is swept, replays answer requests of the recorded hash. */
  ghost predicate StaysBound(c: Config, s: State) {
    forall states, steps :: Continues(c, s, states, steps) && SparingRun(states, steps) ==> ReplaysBacked(states[|steps|])
  }

  /**
   * Payload binding, exactly: in a run that spared held rows so far, a sweep leaves every sparing continuation
   * bound if and only if it spares held rows itself.
   */
  lemma SweepKeepsBindingIff(c: Config, states: seq<State>, steps: seq<Step>, cutoff: int)
    requires Run(c, states, steps) && SparingRun(states, steps) && Enabled(states[|steps|], Sweep(cutoff))
    ensures StaysBound(c, Apply(c, states[|steps|], Sweep(cutoff))) <==> SparesHolders(states[|steps|], Sweep(cutoff))
  {
    var s := states[|steps|];
    var t := Apply(c, s, Sweep(cutoff));
    if SparesHolders(s, Sweep(cutoff)) {
      BindingAt(c, states, steps, |steps|);
      StepKeepsBinding(c, s, Sweep(cutoff));
      hide Run, Apply, Enabled;
      forall more, moreSteps | Continues(c, t, more, moreSteps) && SparingRun(more, moreSteps)
        ensures ReplaysBacked(more[|moreSteps|])
      {
        BindingContinues(c, t, more, moreSteps, |moreSteps|);
      }
    } else {
      IdsAreOldAt(c, states, steps, |steps|);
      var q :| Holds(s, q) && s.requests[q].key in s.db.rows && s.db.rows[s.requests[q].key].expiresAt < cutoff;
      var more, moreSteps := UnsparingSweepMisanswers(c, s, cutoff, q);
      hide Run, Apply, Enabled, ReplaysBacked, IdsAreOld;
      assert SparingRun(more, moreSteps) by {
        forall i | 0 <= i < |moreSteps| ensures SparesHolders(more[i], moreSteps[i]) { assert !moreSteps[i].Sweep?; }
      }
    }
  }
}
