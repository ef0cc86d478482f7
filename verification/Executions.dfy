/** Both lines of defence in one run. */
module Executions {
  // The two lines of defence of `POST /settlements/execute` together: reservations of `X-Idempotency-Key`
  // (src/plugins/idempotency.ts) around handlers that race on a settlement (src/routes/settlements.ts). A handler
  // starts while its request holds the key, but it may go on after a reply was sent for it, as after the timeout
  // plugin's 408 (src/plugins/request-timeout.ts).

  import Idempotency
  import Reservations
  import Replays
  import Settlements

  /** One settlement, and every reservation; `ours` says which request hashes are of bodies that name the settlement. */
  datatype State = State(idem: Idempotency.State, settle: Settlements.State)

  datatype Step = Protect(step: Idempotency.Step) | Handle(move: Settlements.Step)

  /** A success is what the handler replied; anything else can be sent for a request at any time. */
  predicate MaySend(ours: string -> bool, s: State, r: nat, statusCode: int) {
    Reservations.IsSuccess(statusCode) && r in s.idem.requests && ours(s.idem.requests[r].hash) ==>
      r in s.settle.requests && s.settle.requests[r].phase == Settlements.Replied(statusCode)
  }

  /** `execute` handlers start under a held key; `confirm` requests have nothing to do with these keys. */
  predicate MayOpen(ours: string -> bool, s: State, r: nat, kind: Settlements.Kind) {
    if kind.Execute? then Idempotency.Holds(s.idem, r) && ours(s.idem.requests[r].hash) else r !in s.idem.requests
  }

  ghost predicate Enabled(ours: string -> bool, s: State, step: Step) {
    match step
    case Protect(i) =>
      && Idempotency.Enabled(s.idem, i)
      && (i.Arrive? ==> i.r !in s.settle.requests)
      && (i.Send? ==> MaySend(ours, s, i.r, i.statusCode))
    case Handle(h) => Settlements.Enabled(s.settle, h) && (h.Open? ==> MayOpen(ours, s, h.r, h.kind))
  }

  ghost function Apply(ours: string -> bool, c: Reservations.Config, s: State, step: Step): State
    requires Enabled(ours, s, step)
  {
    match step
    case Protect(i) => s.(idem := Idempotency.Apply(c, s.idem, i))
    case Handle(h) => s.(settle := Settlements.Apply(s.settle, h))
  }

  ghost predicate StepAt(ours: string -> bool, c: Reservations.Config, states: seq<State>, steps: seq<Step>, i: nat)
    requires |states| == |steps| + 1 && i < |steps|
  {
    Enabled(ours, states[i], steps[i]) && states[i + 1] == Apply(ours, c, states[i], steps[i])
  }

  /** Any run at all: no holder need be in time, and sweeps may take any row. */
  ghost predicate Run(ours: string -> bool, c: Reservations.Config, states: seq<State>, steps: seq<Step>) {
    && |states| == |steps| + 1
    && states[0].idem == Idempotency.Init
    && (exists xdr :: states[0].settle == Settlements.State(Settlements.Created(xdr), map[], []))
    && forall i :: 0 <= i < |steps| ==> StepAt(ours, c, states, steps, i)
  }

  // ----- what every run keeps -----

  /** A recorded success was replied by the `execute` handler of the request it is recorded for. */
  ghost predicate Executed(ours: string -> bool, s: State) {
    forall p :: 0 <= p < |s.idem.log| ==> SuccessExecuted(ours, s.settle, s.idem.log[p])
  }

  predicate SuccessExecuted(ours: string -> bool, settle: Settlements.State, e: Idempotency.Event) {
    e.Success? && ours(e.hash) ==>
      e.request in settle.requests && settle.requests[e.request].phase == Settlements.Replied(e.response.statusCode)
  }

  ghost predicate Inv(ours: string -> bool, s: State) {
    Settlements.RepliesTellWins(s.settle) && Settlements.WinsApart(s.settle) && Executed(ours, s) && Replays.LogFaithful(s.idem)
  }

  lemma RepliesStay(s: Settlements.State, h: Settlements.Step, r: nat)
    requires Settlements.Enabled(s, h) && r in s.requests && s.requests[r].phase.Replied?
    ensures r in Settlements.Apply(s, h).requests && Settlements.Apply(s, h).requests[r].phase == s.requests[r].phase
  {
    hide Settlements.GrowsQuietly, Settlements.Accepted;
    hide Settlements.RetryAudited, Settlements.AlreadyAccepted, Settlements.NewestIs;
  }

  lemma HandleKeeps(ours: string -> bool, s: State, h: Settlements.Step)
    requires Inv(ours, s) && Settlements.Enabled(s.settle, h)
    ensures Inv(ours, s.(settle := Settlements.Apply(s.settle, h)))
  {
    hide Replays.LogFaithful, Settlements.RepliesTellWins, Settlements.WinsApart;
    Settlements.StepTellsWins(s.settle, h);
    Settlements.StepKeepsWinsApart(s.settle, h);
    var t := s.(settle := Settlements.Apply(s.settle, h));
    hide Settlements.Apply, Settlements.Enabled;
    forall p | 0 <= p < |t.idem.log| ensures SuccessExecuted(ours, t.settle, t.idem.log[p]) {
      var e := s.idem.log[p];
      assert SuccessExecuted(ours, s.settle, e);
      if e.Success? && ours(e.hash) { RepliesStay(s.settle, h, e.request); }
    }
  }

  /** What a step adds to the log of successes was sent as `MaySend` allows. */
  lemma AddedSuccess(ours: string -> bool, c: Reservations.Config, s: State, i: Idempotency.Step)
    requires Enabled(ours, s, Protect(i)) && |Idempotency.Apply(c, s.idem, i).log| == |s.idem.log| + 1
    ensures SuccessExecuted(ours, s.settle, Idempotency.Apply(c, s.idem, i).log[|s.idem.log|])
  {
    hide Reservations.Claimable, Reservations.IsAbandoned, Reservations.InsertedRow, Reservations.ReclaimedRow;
    hide Reservations.RecordedRow, Reservations.Unswept, Reservations.Find, Settlements.Enabled;
  }

  lemma ProtectKeeps(ours: string -> bool, c: Reservations.Config, s: State, i: Idempotency.Step)
    requires Inv(ours, s) && Enabled(ours, s, Protect(i))
    ensures Inv(ours, s.(idem := Idempotency.Apply(c, s.idem, i)))
  {
    Replays.StepAddsToLog(c, s.idem, i);
    var t := s.(idem := Idempotency.Apply(c, s.idem, i));
    if |t.idem.log| == |s.idem.log| + 1 { AddedSuccess(ours, c, s, i); }
    hide Idempotency.Apply, Idempotency.Enabled, Settlements.RepliesTellWins, Settlements.WinsApart, SuccessExecuted;
    forall p | 0 <= p < |t.idem.log|
      ensures SuccessExecuted(ours, t.settle, t.idem.log[p]) && Replays.EventFaithful(t.idem, t.idem.log[p])
    {
      if p < |s.idem.log| {
        assert t.idem.log[p] == s.idem.log[p];
        assert SuccessExecuted(ours, s.settle, s.idem.log[p]) && Replays.EventFaithful(s.idem, s.idem.log[p]);
      }
    }
  }

  lemma StartsInv(ours: string -> bool, s: State, xdr: string)
    requires s == State(Idempotency.Init, Settlements.State(Settlements.Created(xdr), map[], []))
    ensures Inv(ours, s)
  {
  }

  lemma {:induction false} InvAt(ours: string -> bool, c: Reservations.Config, states: seq<State>, steps: seq<Step>, n: nat)
    requires Run(ours, c, states, steps) && n < |states|
    ensures Inv(ours, states[n])
  {
    hide Inv, Settlements.Created;
    if n == 0 {
      var xdr :| states[0].settle == Settlements.State(Settlements.Created(xdr), map[], []);
      StartsInv(ours, states[0], xdr);
    } else {
      InvAt(ours, c, states, steps, n - 1);
      assert StepAt(ours, c, states, steps, n - 1);
      hide Idempotency.Apply, Settlements.Apply, Idempotency.Enabled, Settlements.Enabled;
      match steps[n - 1]
      case Protect(i) => ProtectKeeps(ours, c, states[n - 1], i);
      case Handle(h) => HandleKeeps(ours, states[n - 1], h);
    }
  }

  // ----- both lines together -----

  /** Request r is an `execute` whose conditional update won, at position i. */
  predicate WonAt(s: State, r: nat, i: int) {
    0 <= i < |s.settle.log| && s.settle.log[i].Win? && s.settle.log[i].r == r
  }

  /**
   * However many handlers run for one settlement, under one key or several, in time or late, with their
   * reservations swept or taken over, or replied to with 408 while they still run: between two that win, another
   * writer put the row back to `pending` or `failed`.
   */
  lemma TwoExecutionsNeedAReset(ours: string -> bool, c: Reservations.Config, states: seq<State>, steps: seq<Step>, n: nat,
                                r: nat, q: nat, i: int, j: int)
    requires Run(ours, c, states, steps) && n < |states| && r != q
    requires WonAt(states[n], r, i) && WonAt(states[n], q, j) && i < j
    ensures Settlements.ResetWithin(states[n].settle.log, i, j)
  {
    InvAt(ours, c, states, steps, n);
  }

  /** No other writer has made the settlement submittable again. */
  ghost predicate NeverReset(log: seq<Settlements.Event>) {
    forall k :: 0 <= k < |log| && log[k].Moved? ==> !Settlements.Submittable(log[k].to)
  }

  /** Somebody was told 202 on account of request r: in its own reply, or in the response recorded for it. */
  ghost predicate Accepted202(ours: string -> bool, s: State, r: nat) {
    || (r in s.settle.requests && s.settle.requests[r].phase == Settlements.Replied(202))
    || exists p :: RecordedAcceptance(ours, s.idem.log, p, r)
  }

  predicate RecordedAcceptance(ours: string -> bool, log: seq<Idempotency.Event>, p: int, r: nat) {
    0 <= p < |log| && log[p].Success? && ours(log[p].hash) && log[p].request == r && log[p].response.statusCode == 202
  }

  lemma AcceptedHasWon(ours: string -> bool, s: State, r: nat)
    requires Inv(ours, s) && Accepted202(ours, s, r)
    ensures Settlements.HasWon(s.settle.log, r)
  {
    if exists p :: RecordedAcceptance(ours, s.idem.log, p, r) {
      var p :| RecordedAcceptance(ours, s.idem.log, p, r);
      assert SuccessExecuted(ours, s.settle, s.idem.log[p]);
    }
  }

  lemma NoResetWithin(log: seq<Settlements.Event>, i: int, j: int)
    requires NeverReset(log)
    ensures !Settlements.ResetWithin(log, i, j)
  {
  }

  lemma OneWinner(s: State, r: nat, q: nat)
    requires Settlements.WinsApart(s.settle) && NeverReset(s.settle.log) && Settlements.HasWon(s.settle.log, r) && Settlements.HasWon(s.settle.log, q)
    ensures r == q
  {
    var log := s.settle.log;
    var i :| 0 <= i < |log| && log[i].Win? && log[i].r == r;
    var j :| 0 <= j < |log| && log[j].Win? && log[j].r == q;
    NoResetWithin(log, i, j);
    NoResetWithin(log, j, i);
  }

  /**
   * One acceptance: as long as no other writer resets the settlement, every 202 that was ever sent or recorded
   * for it is on account of one and the same request, whatever keys, timeouts and sweeps did.
   */
  lemma OneAcceptance(ours: string -> bool, c: Reservations.Config, states: seq<State>, steps: seq<Step>, n: nat, r: nat, q: nat)
    requires Run(ours, c, states, steps) && n < |states| && NeverReset(states[n].settle.log)
    requires Accepted202(ours, states[n], r) && Accepted202(ours, states[n], q)
    ensures r == q
  {
    var s := states[n];
    InvAt(ours, c, states, steps, n);
    AcceptedHasWon(ours, s, r);
    AcceptedHasWon(ours, s, q);
    OneWinner(s, r, q);
  }

  /** The sweeps of a run take no held row. */
  ghost predicate SparingRun(states: seq<State>, steps: seq<Step>) {
    |states| == |steps| + 1 && forall i :: 0 <= i < |steps| ==> Spares(states[i], steps[i])
  }

  ghost predicate Spares(s: State, step: Step) {
    step.Protect? ==> Idempotency.SparesHolders(s.idem, step.step)
  }

  lemma {:induction false} BindingAt(ours: string -> bool, c: Reservations.Config, states: seq<State>, steps: seq<Step>, n: nat)
    requires Run(ours, c, states, steps) && SparingRun(states, steps) && n < |states|
    ensures Idempotency.Binding(states[n].idem)
  {
    if n > 0 {
      BindingAt(ours, c, states, steps, n - 1);
      assert StepAt(ours, c, states, steps, n - 1) && Spares(states[n - 1], steps[n - 1]);
      hide Idempotency.Apply, Settlements.Apply, Idempotency.Enabled, Settlements.Enabled, Idempotency.Binding;
      if steps[n - 1].Protect? { Idempotency.StepKeepsBinding(c, states[n - 1].idem, steps[n - 1].step); }
    }
  }

  /**
   * A replayed 202 tells the truth: it goes back to an `execute` of a request with the same hash, which won the
   * conditional update of this settlement.
   */
  lemma ReplayedAcceptanceIsAWin(ours: string -> bool, c: Reservations.Config, states: seq<State>, steps: seq<Step>, n: nat, p: nat)
    requires Run(ours, c, states, steps) && SparingRun(states, steps) && n < |states|
    requires p < |states[n].idem.log| && states[n].idem.log[p].Replay?
    requires ours(states[n].idem.log[p].hash) && states[n].idem.log[p].response.statusCode == 202
    ensures var s := states[n];
            exists q :: q in s.idem.requests && s.idem.requests[q].hash == s.idem.log[p].hash && Settlements.HasWon(s.settle.log, q)
  {
    InvAt(ours, c, states, steps, n);
    BindingAt(ours, c, states, steps, n);
    hide Run, SparingRun, Settlements.WinsApart;
    hide Settlements.RepliesTellWins, Idempotency.EverythingBacked, Idempotency.HoldersBound, Idempotency.RowIdsUnique;
    var s := states[n];
    var log, e := s.idem.log, s.idem.log[p];
    assert Idempotency.Recorded(log, e.rowId, e.hash, e.response);
    var i :| 0 <= i < |log| && log[i].Success? && log[i].rowId == e.rowId && log[i].hash == e.hash && log[i].response == e.response;
    var q := log[i].request;
    assert Replays.EventFaithful(s.idem, log[i]);
    assert RecordedAcceptance(ours, log, i, q);
    AcceptedHasWon(ours, s, q);
    assert q in s.idem.requests && s.idem.requests[q].hash == e.hash && Settlements.HasWon(s.settle.log, q);
  }

  // ----- a retry, from the first request to the replay -----

  lemma Extend(ours: string -> bool, c: Reservations.Config, states: seq<State>, steps: seq<Step>, step: Step, t: State)
      returns (states': seq<State>, steps': seq<Step>)
    requires Run(ours, c, states, steps) && Enabled(ours, states[|steps|], step) && t == Apply(ours, c, states[|steps|], step)
    ensures Run(ours, c, states', steps') && |states'| == |steps'| + 1 && states'[|steps'|] == t
  {
    hide Enabled, Apply, Settlements.Created;
    states', steps' := states + [t], steps + [step];
    forall i | 0 <= i < |steps'| ensures StepAt(ours, c, states', steps', i) {
      if i < |steps| { assert StepAt(ours, c, states, steps, i); }
    }
  }

  /** A step of the reservations alone, and one of the handlers alone. */
  lemma ExtendProtect(ours: string -> bool, c: Reservations.Config, states: seq<State>, steps: seq<Step>, i: Idempotency.Step, t: Idempotency.State)
      returns (states': seq<State>, steps': seq<Step>)
    requires Run(ours, c, states, steps)
    requires Enabled(ours, states[|steps|], Protect(i)) && t == Idempotency.Apply(c, states[|steps|].idem, i)
    ensures Run(ours, c, states', steps') && |states'| == |steps'| + 1 && states'[|steps'|] == State(t, states[|steps|].settle)
  {
    assert |states| == |steps| + 1;
    hide Run, Idempotency.Apply, Idempotency.Enabled, Settlements.Apply, Settlements.Enabled;
    states', steps' := Extend(ours, c, states, steps, Protect(i), State(t, states[|steps|].settle));
  }

  lemma ExtendHandle(ours: string -> bool, c: Reservations.Config, states: seq<State>, steps: seq<Step>, h: Settlements.Step, t: Settlements.State)
      returns (states': seq<State>, steps': seq<Step>)
    requires Run(ours, c, states, steps)
    requires Enabled(ours, states[|steps|], Handle(h)) && t == Settlements.Apply(states[|steps|].settle, h)
    ensures Run(ours, c, states', steps') && |states'| == |steps'| + 1 && states'[|steps'|] == State(states[|steps|].idem, t)
  {
    assert |states| == |steps| + 1;
    hide Run, Idempotency.Apply, Idempotency.Enabled, Settlements.Apply, Settlements.Enabled;
    states', steps' := Extend(ours, c, states, steps, Handle(h), State(states[|steps|].idem, t));
  }

  lemma StartsRun(ours: string -> bool, c: Reservations.Config, s: State)
    requires s == State(Idempotency.Init, Settlements.State(Settlements.Created(""), map[], []))
    ensures Run(ours, c, [s], [])
  {
  }

  /** A request comes for a free key and holds it. */
  lemma FirstRequestHolds(ours: string -> bool, c: Reservations.Config, k: Reservations.Key, h: string)
      returns (states: seq<State>, steps: seq<Step>)
    ensures Run(ours, c, states, steps)
    ensures states[|steps|].idem == Idempotency.State(0, Reservations.Db(map[k := Reservations.InsertedRow(c, 0, h, 0)], 1),
              map[0 := Idempotency.Request(k, h, Idempotency.Holding(0, 0))], [])
    ensures states[|steps|].settle == Settlements.State(Settlements.Created(""), map[], [])
  {
    var s := State(Idempotency.Init, Settlements.State(Settlements.Created(""), map[], []));
    StartsRun(ours, c, s);
    hide Run, Reservations.InsertedRow, Settlements.Created, Settlements.Apply, Settlements.Enabled, Apply;
    var empty := Reservations.Db(map[], 0);
    states, steps := ExtendProtect(ours, c, [s], [], Idempotency.Arrive(0, k, h),
      Idempotency.State(0, empty, map[0 := Idempotency.Request(k, h, Idempotency.Arrived)], []));
    states, steps := ExtendProtect(ours, c, states, steps, Idempotency.Look(0),
      Idempotency.State(0, empty, map[0 := Idempotency.Request(k, h, Idempotency.Looked(Reservations.Find(empty, k)))], []));
    states, steps := ExtendProtect(ours, c, states, steps, Idempotency.Decide(0),
      Idempotency.State(0, empty, map[0 := Idempotency.Request(k, h, Idempotency.Inserting(0))], []));
    states, steps := ExtendProtect(ours, c, states, steps, Idempotency.RunInsert(0),
      Idempotency.State(0, Reservations.Db(map[k := Reservations.InsertedRow(c, 0, h, 0)], 1),
        map[0 := Idempotency.Request(k, h, Idempotency.Holding(0, 0))], []));
  }

  /** Its handler wins the settlement and replies 202. */
  lemma FirstRequestExecutes(ours: string -> bool, c: Reservations.Config, k: Reservations.Key, h: string)
      returns (states: seq<State>, steps: seq<Step>)
    requires ours(h)
    ensures Run(ours, c, states, steps)
    ensures states[|steps|].idem == Idempotency.State(0, Reservations.Db(map[k := Reservations.InsertedRow(c, 0, h, 0)], 1),
              map[0 := Idempotency.Request(k, h, Idempotency.Holding(0, 0))], [])
    ensures states[|steps|].settle == Settlements.State(
              Settlements.Accepted(Settlements.Created(""), Settlements.Execute, 0, "", 0),
              map[0 := Settlements.Request(Settlements.Execute, "", Settlements.Replied(202))],
              [Settlements.Win(0, Settlements.Execute, true)])
  {
    hide Run, Reservations.InsertedRow, Idempotency.Apply, Idempotency.Enabled, Apply, Settlements.Accepted;
    var created := Settlements.State(Settlements.Created(""), map[], []);
    states, steps := FirstRequestHolds(ours, c, k, h);
    states, steps := ExtendHandle(ours, c, states, steps, Settlements.Open(0, Settlements.Execute, ""),
      created.(requests := map[0 := Settlements.Request(Settlements.Execute, "", Settlements.Opened)]));
    states, steps := ExtendHandle(ours, c, states, steps, Settlements.Read(0),
      created.(requests := map[0 := Settlements.Request(Settlements.Execute, "", Settlements.HasRead(Settlements.Pending))]));
    states, steps := ExtendHandle(ours, c, states, steps, Settlements.Commit(0, 0),
      Settlements.State(
        Settlements.Accepted(Settlements.Created(""), Settlements.Execute, 0, "", 0),
        map[0 := Settlements.Request(Settlements.Execute, "", Settlements.Replied(202))],
        [Settlements.Win(0, Settlements.Execute, true)]));
  }

  /** A recorded 202 is replayed to the next request with its key and body. */
  lemma NextRequestIsReplayed(ours: string -> bool, c: Reservations.Config, before: seq<State>, beforeSteps: seq<Step>,
                              k: Reservations.Key, h: string, row: Reservations.Row, body: string)
      returns (states: seq<State>, steps: seq<Step>)
    requires Run(ours, c, before, beforeSteps) && 1 !in before[|beforeSteps|].settle.requests
    requires row.id == 0 && row.hash == h && row.status.Completed? && Reservations.ReplayOf(row) == Reservations.Response(202, body)
    requires var idem := before[|beforeSteps|].idem; k in idem.db.rows && idem.db.rows[k] == row && 1 !in idem.requests
    ensures Run(ours, c, states, steps) && states[|steps|].settle == before[|beforeSteps|].settle
    ensures states[|steps|].idem.log == before[|beforeSteps|].idem.log + [Idempotency.Replay(0, 1, h, Reservations.Response(202, body))]
    ensures 1 in states[|steps|].idem.requests
  {
    var idem := before[|beforeSteps|].idem;
    var asked, answer := idem.requests[1 := Idempotency.Request(k, h, Idempotency.Arrived)], Reservations.Response(202, body);
    assert |before| == |beforeSteps| + 1;
    hide Run, Apply, Settlements.Apply, Settlements.Enabled, Reservations.ReplayOf;
    states, steps := ExtendProtect(ours, c, before, beforeSteps, Idempotency.Arrive(1, k, h), idem.(requests := asked));
    var looked := asked[1 := Idempotency.Request(k, h, Idempotency.Looked(Reservations.Find(idem.db, k)))];
    states, steps := ExtendProtect(ours, c, states, steps, Idempotency.Look(1), idem.(requests := looked));
    states, steps := ExtendProtect(ours, c, states, steps, Idempotency.Decide(1),
      idem.(requests := looked[1 := Idempotency.Request(k, h, Idempotency.Answered(Reservations.Replayed(answer)))],
            log := idem.log + [Idempotency.Replay(0, 1, h, answer)]));
  }

  /**
   * The purpose of it all: a client that sends `execute` twice under one key is told 202 with the same body both
   * times, while the settlement is won, submitted and audited once.
   */
  lemma RetryIsReplayed(ours: string -> bool, c: Reservations.Config, k: Reservations.Key, h: string, body: string)
      returns (states: seq<State>, steps: seq<Step>)
    requires ours(h)
    ensures Run(ours, c, states, steps)
    ensures states[|steps|].idem.log == [Idempotency.Success(0, 0, h, Reservations.Response(202, body)),
                                         Idempotency.Replay(0, 1, h, Reservations.Response(202, body))]
    ensures states[|steps|].settle.log == [Settlements.Win(0, Settlements.Execute, true)]
    ensures states[|steps|].settle.row.status == Settlements.Submitted
    ensures states[|steps|].settle.row.audit == [Settlements.ExecuteWon(0)]
    ensures 1 in states[|steps|].idem.requests && 1 !in states[|steps|].settle.requests
  {
    states, steps := FirstRequestExecutes(ours, c, k, h);
    var answer := Reservations.Response(202, body);
    var row := Reservations.RecordedRow(c, Reservations.InsertedRow(c, 0, h, 0), 0, 202, body);
    assert row.hash == h && row.id == 0 && row.status.Completed? && Reservations.ReplayOf(row) == answer;
    assert states[|steps|].settle.row.status == Settlements.Submitted && states[|steps|].settle.row.audit == [Settlements.ExecuteWon(0)];
    assert |states| == |steps| + 1;
    hide Run, Apply, Settlements.Created, Settlements.Accepted, Settlements.Apply, Settlements.Enabled;
    hide Reservations.RecordedRow, Reservations.InsertedRow, Reservations.ReplayOf;
    var done := Idempotency.Request(k, h, Idempotency.Finished);
    states, steps := ExtendProtect(ours, c, states, steps, Idempotency.Send(0, 0, 202, body),
      Idempotency.State(0, Reservations.Db(map[k := row], 1), map[0 := done], [Idempotency.Success(0, 0, h, answer)]));
    states, steps := NextRequestIsReplayed(ours, c, states, steps, k, h, row, body);
  }
}
