/** Requests racing on a settlement. */
module Settlements {
  // `execute` and `confirm` racing on one settlement: the conditional update from `pending` or `failed` to
  // `submitted`, its history row and its audit row (src/routes/settlements.ts), the duplicate check on history rows
  // (src/services/status-history.ts), and every other writer of the row as an environment.

  import opened Basics

  datatype Status =
    Pending | Submitted | Verifying | PendingConfirmation | NeedsReview | Confirmed | Completed | Failed | Expired

  datatype HistoryRow = HistoryRow(status: Status, source: string)
  datatype Action = RetryConfirm(r: nat) | ConfirmWon(r: nat) | ExecuteWon(r: nat) | StatusChanged(from: Status, to: Status)

  datatype Settlement = Settlement(
    status: Status, transactionXdr: string, submittedAt: Option<int>, confirmedAt: Option<int>,
    stellarTxHash: Option<string>, retryCount: nat, errorCategory: Option<string>,
    failureReason: Option<string>, failureCategory: Option<string>,
    history: seq<HistoryRow>, audit: seq<Action>)

  datatype Kind = Execute | Confirm

  predicate Submittable(status: Status) {
    status.Pending? || status.Failed?
  }

  /** The statuses at which each route answers with the current row and writes nothing. */
  predicate AlreadyAccepted(kind: Kind, status: Status) {
    match kind
    case Execute => status in {Completed, Confirmed, Submitted}
    case Confirm => status in {Completed, Confirmed, Submitted, Verifying, NeedsReview}
  }

  predicate NewestIs(history: seq<HistoryRow>, status: Status) {
    |history| > 0 && history[|history| - 1].status == status
  }

  /** `recordStatusTransitionInTransaction`: nothing is written when the newest row already has this status. */
  function WithStatus(history: seq<HistoryRow>, status: Status, source: string): seq<HistoryRow> {
    if NewestIs(history, status) then history else history + [HistoryRow(status, source)]
  }

  /** The row after a won conditional update. Only `confirm` clears the failure category. */
  function Accepted(s: Settlement, kind: Kind, r: nat, xdr: string, now: int): Settlement {
    s.(status := Submitted, transactionXdr := xdr, submittedAt := Some(now), retryCount := 0,
       failureReason := None,
       failureCategory := if kind.Confirm? then None else s.failureCategory,
       history := WithStatus(s.history, Submitted, "api"),
       audit := s.audit + [if kind.Confirm? then ConfirmWon(r) else ExecuteWon(r)])
  }

  /** `confirm` audits a retry as soon as it has read a failed row, whether or not its update then wins. */
  function RetryAudited(s: Settlement, kind: Kind, r: nat, seen: Status): Settlement {
    if kind.Confirm? && seen.Failed? then s.(audit := s.audit + [RetryConfirm(r)]) else s
  }

  // ----- the state machine behind the ledger reconciliation -----

  /** ALLOWED_TRANSITIONS; `completed` is a legacy status that the map does not know. */
  function AllowedFrom(from: Status): set<Status> {
    match from
    case Pending => {Submitted, Failed}
    case Submitted => {Verifying, Failed}
    case Verifying => {Confirmed, Failed, NeedsReview, Submitted}
    case PendingConfirmation => {Confirmed, Failed, Expired}
    case NeedsReview => {Confirmed, Failed, PendingConfirmation, Expired}
    case _ => {}
  }

  /** What Horizon says of the recorded transaction hash. */
  datatype LedgerAnswer = Unreachable | Unknown | Successful | Unsuccessful

  /** The columns that `confirm` passes along with the transition. */
  function WithExtraData(s: Settlement, next: Status, txHash: string): Settlement {
    if next.Confirmed? then s.(retryCount := 0, errorCategory := None, failureReason := None)
    else s.(failureReason := Some("Transaction " + txHash + " failed on Stellar"))
  }

  /** The guarded update, and its audit and history rows, by a transition that read status `seen`. */
  function Transitioned(s: Settlement, seen: Status, next: Status, txHash: string, now: int): Settlement {
    if next in AllowedFrom(s.status) then
      WithExtraData(s, next, txHash).(
        status := next, confirmedAt := if next.Confirmed? then Some(now) else s.confirmedAt,
        audit := s.audit + [StatusChanged(seen, next)], history := WithStatus(s.history, next, "system"))
    else s
  }

  /** `applySettlementTransition`, with `others` between its read and its update; a refused transition is thrown. */
  function Reconciled(s: Settlement, others: Settlement -> Settlement, next: Status, txHash: string, now: int): Settlement {
    if s.status == next then WithExtraData(others(s), next, txHash)
    else if next !in AllowedFrom(s.status) then s
    else Transitioned(others(s), s.status, next, txHash, now)
  }

  class SettlementStore {
    var row: Settlement

    constructor (xdr: string)
      ensures row == Created(xdr) && row.status.Pending? && row.retryCount == 0 && row.failureReason == None
      ensures row.history == [HistoryRow(Pending, "api")] && row.audit == []
    {
      row := Created(xdr);
    }

    method RecordStatusTransition(status: Status, source: string)
      modifies this
      ensures row == old(row).(history := WithStatus(old(row).history, status, source))
    {
      if |row.history| > 0 {
        var latest := row.history[|row.history| - 1];
        if latest.status == status { return; }
      }
      row := row.(history := row.history + [HistoryRow(status, source)]);
    }

    method UpdateManySubmittable(kind: Kind, xdr: string, now: int) returns (count: nat)
      modifies this
      ensures count == if Submittable(old(row).status) then 1 else 0
      ensures count == 0 ==> row == old(row)
      ensures count == 1 ==> row == old(row).(
                status := Submitted, transactionXdr := xdr, submittedAt := Some(now), retryCount := 0, failureReason := None,
                failureCategory := if kind.Confirm? then None else old(row).failureCategory)
    {
      count := 0;
      if row.status in {Pending, Failed} {
        row := row.(status := Submitted, transactionXdr := xdr, submittedAt := Some(now), retryCount := 0, failureReason := None);
        if kind.Confirm? { row := row.(failureCategory := None); }
        count := 1;
      }
    }

    /**
     * The `execute` transaction. `others` is what other writers commit between its read and its conditional
     * update. The reply is 202 exactly when the row read was not already accepted and was submittable when
     * the update ran; the whole row is then the accepted one, and otherwise this request wrote nothing.
     */
    method RunExecute(r: nat, xdr: string, now: int, others: Settlement -> Settlement) returns (statusCode: int)
      modifies this
      ensures statusCode == if !AlreadyAccepted(Execute, old(row).status) && Submittable(others(old(row)).status) then 202 else 200
      ensures statusCode == 202 ==> row == Accepted(others(old(row)), Execute, r, xdr, now)
      ensures statusCode == 200 ==> row == if AlreadyAccepted(Execute, old(row).status) then old(row) else others(old(row))
    {
      var read := row;
      if read.status in {Completed, Confirmed, Submitted} { return 200; }
      row := others(row);
      var count := UpdateManySubmittable(Execute, xdr, now);
      if count > 0 {
        RecordStatusTransition(Submitted, "api");
        row := row.(audit := row.audit + [ExecuteWon(r)]);
      }
      return if count > 0 then 202 else 200;
    }

    method ApplySettlementTransition(next: Status, txHash: string, now: int, others: Settlement -> Settlement)
      modifies this
      ensures row == Reconciled(old(row), others, next, txHash, now)
    {
      var current := row.status;
      if next == current {
        row := others(row);
        row := WithExtraData(row, next, txHash);
        return;
      }
      if next !in AllowedFrom(current) { return; }
      row := others(row);
      if next in AllowedFrom(row.status) {
        row := WithExtraData(row, next, txHash);
        row := row.(status := next);
        if next.Confirmed? { row := row.(confirmedAt := Some(now)); }
        row := row.(audit := row.audit + [StatusChanged(current, next)]);
        RecordStatusTransition(next, "system");
      }
    }

    /**
     * The `confirm` transaction. `others` runs between its read and what follows it, `meanwhile` inside the
     * transition that the ledger reconciliation applies. A settlement already accepted is only reconciled with
     * the ledger, when it has a transaction hash; any other is submitted exactly when it is submittable at the
     * conditional update.
     */
    method RunConfirm(r: nat, xdr: string, now: int, ledger: LedgerAnswer,
                      others: Settlement -> Settlement, meanwhile: Settlement -> Settlement) returns (won: bool)
      modifies this
      ensures won == (!AlreadyAccepted(Confirm, old(row).status)
                      && Submittable(others(RetryAudited(old(row), Confirm, r, old(row).status)).status))
      ensures AlreadyAccepted(Confirm, old(row).status) ==>
        row == match old(row).stellarTxHash
               case None => old(row)
               case Some(txHash) =>
                 if ledger.Successful? then Reconciled(others(old(row)), meanwhile, Confirmed, txHash, now)
                 else if ledger.Unsuccessful? then Reconciled(others(old(row)), meanwhile, Failed, txHash, now)
                 else others(old(row))
      ensures !AlreadyAccepted(Confirm, old(row).status) ==>
        var mid := others(RetryAudited(old(row), Confirm, r, old(row).status));
        row == if won then Accepted(mid, Confirm, r, xdr, now) else mid
    {
      var read := row;
      if read.status in {Completed, Confirmed, Submitted, Verifying, NeedsReview} {
        if read.stellarTxHash.Some? {
          row := others(row);
          if ledger.Successful? {
            ApplySettlementTransition(Confirmed, read.stellarTxHash.value, now, meanwhile);
          } else if ledger.Unsuccessful? {
            ApplySettlementTransition(Failed, read.stellarTxHash.value, now, meanwhile);
          }
        }
        return false;
      }
      if read.status == Failed {
        row := row.(audit := row.audit + [RetryConfirm(r)]);
      }
      row := others(row);
      var count := UpdateManySubmittable(Confirm, xdr, now);
      if count > 0 {
        RecordStatusTransition(Submitted, "api");
        row := row.(audit := row.audit + [ConfirmWon(r)]);
      }
      return count > 0;
    }
  }

  // ----- what the reconciliation does -----

  /** The transition map, by what a transition leads to. */
  lemma SettlementMapInWords(from: Status, to: Status)
    ensures to in AllowedFrom(from) <==>
      match to
      case Failed => from !in {Confirmed, Completed, Failed, Expired}
      case Confirmed => from in {Verifying, PendingConfirmation, NeedsReview}
      case Expired => from in {PendingConfirmation, NeedsReview}
      case Submitted => from in {Pending, Verifying}
      case Verifying => from.Submitted?
      case NeedsReview => from.Verifying?
      case PendingConfirmation => from.NeedsReview?
      case Pending => false
      case Completed => false
  {
  }

  /** A way through the map. */
  ghost predicate IsPath(path: seq<Status>) {
    path != [] && forall i :: 0 < i < |path| ==> path[i] in AllowedFrom(path[i - 1])
  }

  /**
   * No settlement is confirmed unverified: a path of the map from `pending` to `confirmed` comes through `submitted`
   * and then `verifying`, and it ends there.
   */
  lemma ConfirmationsAreVerified(path: seq<Status>, n: nat)
    requires IsPath(path) && path[0].Pending? && n < |path| && path[n].Confirmed?
    ensures exists i, j :: 0 < i < j < n && path[i].Submitted? && path[j].Verifying?
    ensures n == |path| - 1
  {
    var j := VisitBefore(path, n, {Confirmed, PendingConfirmation, NeedsReview}, Verifying);
    var i := VisitBefore(path, j, {Verifying}, Submitted);
    assert 0 < i < j < n;
    assert n + 1 < |path| ==> path[n + 1] in AllowedFrom(path[n]);
  }

  /** A path that gets into `region`, which the map enters through `gate` alone, has come through `gate`. */
  lemma {:induction false} VisitBefore(path: seq<Status>, n: nat, region: set<Status>, gate: Status) returns (g: nat)
    requires IsPath(path) && path[0].Pending? && n < |path| && path[n] in region && Pending !in region
    requires forall from, to :: to in region && from !in region && to in AllowedFrom(from) ==> from == gate
    ensures g < n && path[g] == gate
  {
    if n > 0 && path[n - 1] in region {
      g := VisitBefore(path, n - 1, region, gate);
    } else {
      assert n > 0 && path[n] in AllowedFrom(path[n - 1]);
      g := n - 1;
    }
  }

  /** The history with a status told once more, unless it is what the newest row says. */
  ghost predicate Told(before: seq<HistoryRow>, after: seq<HistoryRow>, status: Status) {
    after == if |before| > 0 && before[|before| - 1].status == status then before else before + [HistoryRow(status, "system")]
  }

  /**
   * What reconciling writes, whoever interferes: a payment that failed on the ledger fails the settlement with a
   * reason that names the transaction, one that succeeded confirms it with a clean record, each with one audit
   * record; when the settlement has meanwhile gone where the map does not allow it, nothing is written. The audit
   * record names the status that was read, which need not be the one replaced.
   */
  lemma ReconciliationWrites(s: Settlement, others: Settlement -> Settlement, txHash: string, now: int)
    ensures s.status in {Submitted, Verifying, NeedsReview} ==>
      var t, failed := others(s), Reconciled(s, others, Failed, txHash, now);
      if t.status in {Confirmed, Completed, Failed, Expired} then failed == t
      else && failed == t.(status := Failed, failureReason := Some("Transaction " + txHash + " failed on Stellar"),
                           audit := t.audit + [StatusChanged(s.status, Failed)], history := failed.history)
           && Told(t.history, failed.history, Failed)
    ensures s.status in {Verifying, NeedsReview} ==>
      var t, confirmed := others(s), Reconciled(s, others, Confirmed, txHash, now);
      if t.status !in {Verifying, PendingConfirmation, NeedsReview} then confirmed == t
      else && confirmed == t.(status := Confirmed, retryCount := 0, errorCategory := None, failureReason := None,
                              confirmedAt := Some(now), audit := t.audit + [StatusChanged(s.status, Confirmed)],
                              history := confirmed.history)
           && Told(t.history, confirmed.history, Confirmed)
    ensures s.status.Confirmed? ==>
      && Reconciled(s, others, Confirmed, txHash, now) == others(s).(retryCount := 0, errorCategory := None, failureReason := None)
      && Reconciled(s, others, Failed, txHash, now) == s
  {
    if s.status in {Submitted, Verifying, NeedsReview} { SettlementMapInWords(others(s).status, Failed); }
    if s.status in {Verifying, NeedsReview} { SettlementMapInWords(others(s).status, Confirmed); }
  }

  /**
   * Which settlements an unsuccessful ledger answer fails: with nobody interfering, of those `confirm` reconciles,
   * exactly the ones that are submitted, in verification or in review. A confirmed or completed one stays as it is.
   */
  lemma ReconciliationFailsIff(s: Settlement, txHash: string, now: int)
    requires AlreadyAccepted(Confirm, s.status)
    ensures Reconciled(s, x => x, Failed, txHash, now).status.Failed? <==> s.status in {Submitted, Verifying, NeedsReview}
    ensures s.status !in {Submitted, Verifying, NeedsReview} ==> Reconciled(s, x => x, Failed, txHash, now) == s
  {
    SettlementMapInWords(s.status, Failed);
  }

  /**
   * Which settlements a successful ledger answer confirms: with nobody interfering, of those `confirm`
   * reconciles, exactly the ones in verification or review. A settlement still `submitted` stays as it is, since
   * the map does not lead from there to `confirmed`.
   */
  lemma ReconciliationConfirmsIff(s: Settlement, txHash: string, now: int)
    requires AlreadyAccepted(Confirm, s.status) && !s.status.Confirmed?
    ensures Reconciled(s, x => x, Confirmed, txHash, now).status.Confirmed? <==> s.status in {Verifying, NeedsReview}
    ensures s.status !in {Verifying, NeedsReview} ==> Reconciled(s, x => x, Confirmed, txHash, now) == s
  {
  }

  /** Whatever interferes, reconciling never makes a row `submitted` and never takes back a confirmation. */
  lemma ReconciliationIsSafe(s: Settlement, others: Settlement -> Settlement, next: Status, txHash: string, now: int)
    requires next in {Confirmed, Failed}
    ensures var t := Reconciled(s, others, next, txHash, now);
            && (t.status == next || t.status == s.status || t.status == others(s).status)
            && (others(s).status.Confirmed? && next.Failed? && !s.status.Failed? ==> t == s || t == others(s))
            && (GrowsQuietly(s, others(s)) ==> GrowsQuietly(s, t))
  {
  }

  // ----- any number of requests and other writers -----

  datatype Phase = Opened | HasRead(seen: Status) | Replied(statusCode: int) | RolledBack
  datatype Request = Request(kind: Kind, xdr: string, phase: Phase)

  /** Another writer adds history and audit rows, but none that `execute` or `confirm` write when they win. */
  ghost predicate GrowsQuietly(s: Settlement, t: Settlement) {
    && s.history <= t.history && s.audit <= t.audit
    && (forall i :: |s.history| <= i < |t.history| ==> t.history[i] != HistoryRow(Submitted, "api"))
    && (forall i :: |s.audit| <= i < |t.audit| ==> !IsWin(t.audit[i]))
  }

  predicate IsWin(a: Action) {
    a.ConfirmWon? || a.ExecuteWon?
  }

  /** A won conditional update (with whether it wrote a history row), or another writer's status change. */
  datatype Event = Win(r: nat, kind: Kind, wroteHistory: bool) | Moved(to: Status)

  datatype State = State(row: Settlement, requests: map<nat, Request>, log: seq<Event>)

  datatype Step =
    | Open(r: nat, kind: Kind, xdr: string)
    | Read(r: nat)
    | Commit(r: nat, now: int)
    | Rollback(r: nat)
    | Other(row: Settlement)

  ghost predicate Enabled(s: State, step: Step) {
    match step
    case Open(r, _, _) => r !in s.requests
    case Read(r) => r in s.requests && s.requests[r].phase.Opened?
    case Commit(r, _) => r in s.requests && s.requests[r].phase.HasRead?
    case Rollback(r) => r in s.requests && (s.requests[r].phase.Opened? || s.requests[r].phase.HasRead?)
    case Other(row) => GrowsQuietly(s.row, row)
  }

  function Goto(s: State, r: nat, phase: Phase): State
    requires r in s.requests
  {
    s.(requests := s.requests[r := s.requests[r].(phase := phase)])
  }

  ghost function DoRead(s: State, r: nat): State
    requires Enabled(s, Read(r))
  {
    if AlreadyAccepted(s.requests[r].kind, s.row.status) then Goto(s, r, Replied(200)) else Goto(s, r, HasRead(s.row.status))
  }

  ghost function DoCommit(s: State, r: nat, now: int): State
    requires Enabled(s, Commit(r, now))
  {
    var req := s.requests[r];
    var row := RetryAudited(s.row, req.kind, r, req.phase.seen);
    if Submittable(row.status) then
      Goto(s, r, Replied(if req.kind.Execute? then 202 else 200))
        .(row := Accepted(row, req.kind, r, req.xdr, now),
          log := s.log + [Win(r, req.kind, !NewestIs(row.history, Submitted))])
    else Goto(s, r, Replied(200)).(row := row)
  }

  ghost function Apply(s: State, step: Step): State
    requires Enabled(s, step)
  {
    match step
    case Open(r, kind, xdr) => s.(requests := s.requests[r := Request(kind, xdr, Opened)])
    case Read(r) => DoRead(s, r)
    case Commit(r, now) => DoCommit(s, r, now)
    case Rollback(r) => Goto(s, r, RolledBack)
    case Other(row) => s.(row := row, log := if row.status == s.row.status then s.log else s.log + [Moved(row.status)])
  }

  function Created(xdr: string): Settlement {
    Settlement(Pending, xdr, None, None, None, 0, None, None, None, [HistoryRow(Pending, "api")], [])
  }

  ghost predicate StepAt(states: seq<State>, steps: seq<Step>, i: nat)
    requires |states| == |steps| + 1 && i < |steps|
  {
    Enabled(states[i], steps[i]) && states[i + 1] == Apply(states[i], steps[i])
  }

  ghost predicate Run(states: seq<State>, steps: seq<Step>) {
    && |states| == |steps| + 1
    && (exists xdr :: states[0] == State(Created(xdr), map[], []))
    && forall i :: 0 <= i < |steps| ==> StepAt(states, steps, i)
  }

  // ----- counting -----

  function Wins(log: seq<Event>): nat {
    if log == [] then 0 else Wins(log[..|log| - 1]) + if log[|log| - 1].Win? then 1 else 0
  }

  function WinsUnrecorded(log: seq<Event>): nat {
    if log == [] then 0
    else WinsUnrecorded(log[..|log| - 1]) + if log[|log| - 1].Win? && !log[|log| - 1].wroteHistory then 1 else 0
  }

  /** `submitted` rows written by the API. */
  function ApiRows(history: seq<HistoryRow>): nat {
    if history == [] then 0
    else ApiRows(history[..|history| - 1]) + if history[|history| - 1] == HistoryRow(Submitted, "api") then 1 else 0
  }

  lemma {:induction false} OtherRowsDoNotCount(history: seq<HistoryRow>, rows: seq<HistoryRow>)
    requires forall i :: 0 <= i < |rows| ==> rows[i] != HistoryRow(Submitted, "api")
    ensures ApiRows(history + rows) == ApiRows(history)
  {
    if rows == [] {
      assert history + rows == history;
    } else {
      var front := rows[..|rows| - 1];
      assert (history + rows)[..|history + rows| - 1] == history + front;
      OtherRowsDoNotCount(history, front);
    }
  }

  ghost predicate Balanced(s: State) {
    Wins(s.log) == ApiRows(s.row.history) + WinsUnrecorded(s.log)
  }

  lemma LogGrows(log: seq<Event>, e: Event)
    ensures Wins(log + [e]) == Wins(log) + if e.Win? then 1 else 0
    ensures WinsUnrecorded(log + [e]) == WinsUnrecorded(log) + if e.Win? && !e.wroteHistory then 1 else 0
  {
    assert (log + [e])[..|log|] == log;
  }

  lemma HistoryGrows(history: seq<HistoryRow>, row: HistoryRow)
    ensures ApiRows(history + [row]) == ApiRows(history) + if row == HistoryRow(Submitted, "api") then 1 else 0
  {
    assert (history + [row])[..|history|] == history;
  }

  lemma StepBalances(s: State, step: Step)
    requires Balanced(s) && Enabled(s, step)
    ensures Balanced(Apply(s, step))
  {
    hide Wins, WinsUnrecorded, ApiRows;
    var t := Apply(s, step);
    if t.log != s.log { LogGrows(s.log, t.log[|s.log|]); }
    if step.Other? {
      var n := |s.row.history|;
      assert t.row.history == s.row.history + t.row.history[n..];
      OtherRowsDoNotCount(s.row.history, t.row.history[n..]);
    } else if t.row.history != s.row.history {
      HistoryGrows(s.row.history, t.row.history[|s.row.history|]);
    }
  }

  lemma {:induction false} WinsAndRowsBalance(states: seq<State>, steps: seq<Step>, i: nat)
    requires Run(states, steps) && i < |states|
    ensures Balanced(states[i])
  {
    if i > 0 {
      WinsAndRowsBalance(states, steps, i - 1);
      assert StepAt(states, steps, i - 1);
      StepBalances(states[i - 1], steps[i - 1]);
    } else {
      var xdr :| states[0] == State(Created(xdr), map[], []);
      assert Created(xdr).history[..0] == [];
    }
  }

  ghost predicate EveryWinRecorded(log: seq<Event>) {
    forall i :: 0 <= i < |log| && log[i].Win? ==> log[i].wroteHistory
  }

  lemma {:induction false} UnrecordedZero(log: seq<Event>)
    ensures WinsUnrecorded(log) == 0 <==> EveryWinRecorded(log)
  {
    if log != [] {
      var front := log[..|log| - 1];
      UnrecordedZero(front);
      assert forall i :: 0 <= i < |front| ==> front[i] == log[i];
      assert EveryWinRecorded(log) ==> EveryWinRecorded(front);
    }
  }

  /** A commit that wins on a row whose newest history row is already `submitted`: the duplicate check drops its row. */
  predicate DropsRow(s: State, step: Step) {
    step.Commit? && Submittable(s.row.status) && NewestIs(s.row.history, Submitted)
  }

  ghost predicate NoRowDropped(states: seq<State>, steps: seq<Step>, i: nat)
    requires |states| == |steps| + 1 && i <= |steps|
  {
    forall j :: 0 <= j < i ==> !DropsRow(states[j], steps[j])
  }

  lemma StepRecordsIff(s: State, step: Step)
    requires Enabled(s, step)
    ensures EveryWinRecorded(Apply(s, step).log) <==> EveryWinRecorded(s.log) && !DropsRow(s, step)
  {
    hide GrowsQuietly, Accepted, EveryWinRecorded;
    var t := Apply(s, step);
    if t.log != s.log { RecordedGrows(s.log, t.log[|s.log|]); }
  }

  lemma RecordedGrows(log: seq<Event>, e: Event)
    ensures EveryWinRecorded(log + [e]) <==> EveryWinRecorded(log) && (e.Win? ==> e.wroteHistory)
  {
    assert forall k :: 0 <= k < |log| ==> (log + [e])[k] == log[k];
    assert (log + [e])[|log|] == e;
  }

  lemma {:induction false} RecordedIffNoneDropped(states: seq<State>, steps: seq<Step>, i: nat)
    requires Run(states, steps) && i < |states|
    ensures EveryWinRecorded(states[i].log) <==> NoRowDropped(states, steps, i)
  {
    if i > 0 {
      RecordedIffNoneDropped(states, steps, i - 1);
      assert StepAt(states, steps, i - 1);
      StepRecordsIff(states[i - 1], steps[i - 1]);
      hide EveryWinRecorded, DropsRow, Enabled, Apply;
    }
  }

  /**
   * History rows and won updates agree in number exactly when no win came upon a row that another writer had made
   * submittable again with `submitted` still on top of its history. They never disagree the other way: a row
   * always has its win.
   */
  lemma RowsMatchWinsIff(states: seq<State>, steps: seq<Step>, i: nat)
    requires Run(states, steps) && i < |states|
    ensures ApiRows(states[i].row.history) <= Wins(states[i].log)
    ensures ApiRows(states[i].row.history) == Wins(states[i].log) <==> NoRowDropped(states, steps, i)
  {
    WinsAndRowsBalance(states, steps, i);
    UnrecordedZero(states[i].log);
    RecordedIffNoneDropped(states, steps, i);
  }

  /** The environment never leaves a submittable row with `submitted` on top of its history. */
  ghost predicate TruthfulHistory(states: seq<State>) {
    forall i :: 0 <= i < |states| && Submittable(states[i].row.status) ==> !NewestIs(states[i].row.history, Submitted)
  }

  /** When other writers keep the history truthful, history rows and wins correspond one for one. */
  lemma RowsMatchWins(states: seq<State>, steps: seq<Step>, i: nat)
    requires Run(states, steps) && TruthfulHistory(states) && i < |states|
    ensures ApiRows(states[i].row.history) == Wins(states[i].log)
  {
    RowsMatchWinsIff(states, steps, i);
  }

  lemma Extend(states: seq<State>, steps: seq<Step>, step: Step, t: State)
      returns (states': seq<State>, steps': seq<Step>)
    requires Run(states, steps) && Enabled(states[|steps|], step) && t == Apply(states[|steps|], step)
    ensures Run(states', steps') && |states'| == |steps'| + 1 && states'[|steps'|] == t
  {
    hide Enabled, Apply;
    states', steps' := states + [t], steps + [step];
    forall i | 0 <= i < |steps'| ensures StepAt(states', steps', i) {
      if i < |steps| { assert StepAt(states, steps, i); }
    }
  }

  lemma StartsRun(s: State)
    requires s == State(Created(""), map[], [])
    ensures Run([s], [])
  {
  }

  /** An `execute` request that comes to a submittable row wins. */
  lemma Executes(states: seq<State>, steps: seq<Step>, r: nat) returns (states': seq<State>, steps': seq<Step>)
    requires Run(states, steps) && |states| == |steps| + 1
    requires r !in states[|steps|].requests && Submittable(states[|steps|].row.status)
    ensures Run(states', steps') && |states'| == |steps'| + 1
    ensures var s := states[|steps|];
            states'[|steps'|] == State(Accepted(s.row, Execute, r, "", 0), s.requests[r := Request(Execute, "", Replied(202))],
                                       s.log + [Win(r, Execute, !NewestIs(s.row.history, Submitted))])
  {
    hide Run, Accepted, NewestIs;
    var s := states[|steps|];
    var t1 := s.(requests := s.requests[r := Request(Execute, "", Opened)]);
    states', steps' := Extend(states, steps, Open(r, Execute, ""), t1);
    var t2 := s.(requests := s.requests[r := Request(Execute, "", HasRead(s.row.status))]);
    assert t1.requests[r := Request(Execute, "", HasRead(s.row.status))] == t2.requests;
    states', steps' := Extend(states', steps', Read(r), t2);
    var done := s.requests[r := Request(Execute, "", Replied(202))];
    assert t2.requests[r := Request(Execute, "", Replied(202))] == done;
    states', steps' := Extend(states', steps', Commit(r, 0),
      State(Accepted(s.row, Execute, r, "", 0), done, s.log + [Win(r, Execute, !NewestIs(s.row.history, Submitted))]));
  }

  /** Two wins and one row: a writer moved the row to `failed` without telling the history. */
  lemma SilentResetLosesARow() returns (states: seq<State>, steps: seq<Step>)
    ensures Run(states, steps) && Wins(states[|steps|].log) == 2 && ApiRows(states[|steps|].row.history) == 1
  {
    hide Run, Wins, ApiRows;
    var s0 := State(Created(""), map[], []);
    StartsRun(s0);
    states, steps := Executes([s0], [], 0);
    var s1 := states[|steps|];
    var reset := s1.(row := s1.row.(status := Failed), log := s1.log + [Moved(Failed)]);
    states, steps := Extend(states, steps, Other(reset.row), reset);
    states, steps := Executes(states, steps, 1);
    var win0, win1 := Win(0, Execute, true), Win(1, Execute, false);
    assert states[|steps|].log == [] + [win0] + [Moved(Failed)] + [win1];
    LogGrows([], win0);
    LogGrows([] + [win0], Moved(Failed));
    LogGrows([] + [win0] + [Moved(Failed)], win1);
    assert states[|steps|].row.history == [] + [HistoryRow(Pending, "api")] + [HistoryRow(Submitted, "api")];
    HistoryGrows([], HistoryRow(Pending, "api"));
    HistoryGrows([] + [HistoryRow(Pending, "api")], HistoryRow(Submitted, "api"));
    assert Wins([]) == 0 && ApiRows([]) == 0 by { NothingCounts(); }
  }

  lemma NothingCounts()
    ensures Wins([]) == 0 && ApiRows([]) == 0
  {
  }

  // ----- what replies and audit rows mean -----

  /** The audit records of won updates, in order. */
  function WonActions(audit: seq<Action>): seq<Action> {
    if audit == [] then []
    else WonActions(audit[..|audit| - 1]) + if IsWin(audit[|audit| - 1]) then [audit[|audit| - 1]] else []
  }

  function WinActions(log: seq<Event>): seq<Action> {
    if log == [] then []
    else
      var e := log[|log| - 1];
      WinActions(log[..|log| - 1]) + if e.Moved? then [] else [if e.kind.Confirm? then ConfirmWon(e.r) else ExecuteWon(e.r)]
  }

  lemma AuditGrows(audit: seq<Action>, a: Action)
    ensures WonActions(audit + [a]) == WonActions(audit) + if IsWin(a) then [a] else []
  {
    assert (audit + [a])[..|audit|] == audit;
  }

  lemma {:induction false} OtherActionsDoNotCount(audit: seq<Action>, more: seq<Action>)
    requires forall i :: 0 <= i < |more| ==> !IsWin(more[i])
    ensures WonActions(audit + more) == WonActions(audit)
  {
    if more == [] {
      assert audit + more == audit;
    } else {
      var front := more[..|more| - 1];
      assert audit + more == (audit + front) + [more[|more| - 1]];
      OtherActionsDoNotCount(audit, front);
      AuditGrows(audit + front, more[|more| - 1]);
    }
  }

  lemma WinActionsGrow(log: seq<Event>, e: Event)
    ensures WinActions(log + [e])
         == WinActions(log) + if e.Moved? then [] else [if e.kind.Confirm? then ConfirmWon(e.r) else ExecuteWon(e.r)]
  {
    assert (log + [e])[..|log|] == log;
  }

  lemma StepAuditsWins(s: State, step: Step)
    requires WonActions(s.row.audit) == WinActions(s.log) && Enabled(s, step)
    ensures WonActions(Apply(s, step).row.audit) == WinActions(Apply(s, step).log)
  {
    hide WonActions, WinActions;
    var t := Apply(s, step);
    if t.log != s.log { WinActionsGrow(s.log, t.log[|s.log|]); }
    if step.Other? {
      var n := |s.row.audit|;
      assert t.row.audit == s.row.audit + t.row.audit[n..];
      OtherActionsDoNotCount(s.row.audit, t.row.audit[n..]);
    }
    if step.Commit? {
      var req := s.requests[step.r];
      var mid := RetryAudited(s.row, req.kind, step.r, req.phase.seen);
      if mid.audit != s.row.audit { AuditGrows(s.row.audit, mid.audit[|s.row.audit|]); }
      if t.row.audit != mid.audit { AuditGrows(mid.audit, t.row.audit[|mid.audit|]); }
    }
  }

  /** The audit trail of won updates is the list of wins, in commit order, whoever raced whom. */
  lemma {:induction false} AuditListsWins(states: seq<State>, steps: seq<Step>, i: nat)
    requires Run(states, steps) && i < |states|
    ensures WonActions(states[i].row.audit) == WinActions(states[i].log)
  {
    if i > 0 {
      AuditListsWins(states, steps, i - 1);
      assert StepAt(states, steps, i - 1);
      StepAuditsWins(states[i - 1], steps[i - 1]);
    }
  }

  /** A win belongs to one request, of its own kind, which has been answered: 202 for `execute`, 200 for `confirm`. */
  ghost predicate WinAnswered(s: State, i: nat)
    requires i < |s.log| && s.log[i].Win?
  {
    && s.log[i].r in s.requests
    && s.requests[s.log[i].r].kind == s.log[i].kind
    && s.requests[s.log[i].r].phase == Replied(if s.log[i].kind.Execute? then 202 else 200)
  }

  ghost predicate HasWon(log: seq<Event>, r: nat) {
    exists i :: 0 <= i < |log| && log[i].Win? && log[i].r == r
  }

  /** Each 202 has its `execute` win, each win its 202 (or a confirm's 200), all else gets 200, and no request wins twice. */
  ghost predicate RepliesTellWins(s: State) {
    && (forall i :: 0 <= i < |s.log| && s.log[i].Win? ==> WinAnswered(s, i))
    && (forall r :: r in s.requests && s.requests[r].phase == Replied(202) ==> s.requests[r].kind.Execute? && HasWon(s.log, r))
    && (forall r :: r in s.requests && s.requests[r].phase.Replied? ==> s.requests[r].phase.statusCode in {200, 202})
    && (forall i, j :: 0 <= i < j < |s.log| && s.log[i].Win? && s.log[j].Win? ==> s.log[i].r != s.log[j].r)
  }

  lemma HasWonGrows(log: seq<Event>, e: Event)
    ensures forall r :: HasWon(log, r) ==> HasWon(log + [e], r)
  {
    forall r | HasWon(log, r) ensures HasWon(log + [e], r) {
      var i :| 0 <= i < |log| && log[i].Win? && log[i].r == r;
      assert (log + [e])[i] == log[i];
    }
  }

  lemma StepTellsWins(s: State, step: Step)
    requires RepliesTellWins(s) && Enabled(s, step)
    ensures RepliesTellWins(Apply(s, step))
  {
    var t := Apply(s, step);
    assert forall i :: 0 <= i < |s.log| && s.log[i].Win? ==> WinAnswered(s, i);
    if t.log != s.log {
      var e := t.log[|s.log|];
      assert t.log == s.log + [e];
      HasWonGrows(s.log, e);
      if e.Win? { assert t.log[|s.log|].r == e.r && HasWon(t.log, e.r); }
    }
  }

  /** In every interleaving a fresh 202 is sent exactly for an `execute` win. */
  lemma {:induction false} RepliesTellWinsAt(states: seq<State>, steps: seq<Step>, i: nat)
    requires Run(states, steps) && i < |states|
    ensures RepliesTellWins(states[i])
  {
    if i > 0 {
      RepliesTellWinsAt(states, steps, i - 1);
      assert StepAt(states, steps, i - 1);
      StepTellsWins(states[i - 1], steps[i - 1]);
    }
  }

  // ----- between two wins -----

  /** Another writer put the row back to `pending` or `failed` strictly between two points of the log. */
  ghost predicate ResetWithin(log: seq<Event>, from: int, to: int) {
    exists k :: from < k < to && 0 <= k < |log| && log[k].Moved? && Submittable(log[k].to)
  }

  ghost predicate WinsApart(s: State) {
    && (forall i, j :: 0 <= i < j < |s.log| && s.log[i].Win? && s.log[j].Win? ==> ResetWithin(s.log, i, j))
    && (forall i :: 0 <= i < |s.log| && s.log[i].Win? && Submittable(s.row.status) ==> ResetWithin(s.log, i, |s.log|))
  }

  lemma ResetStays(log: seq<Event>, e: Event, from: int, to: int)
    requires ResetWithin(log, from, to) && to <= |log|
    ensures ResetWithin(log + [e], from, to) && ResetWithin(log + [e], from, |log + [e]|)
  {
    var k :| from < k < to && 0 <= k < |log| && log[k].Moved? && Submittable(log[k].to);
    assert (log + [e])[k] == log[k];
  }

  lemma StepKeepsWinsApart(s: State, step: Step)
    requires WinsApart(s) && Enabled(s, step)
    ensures WinsApart(Apply(s, step))
  {
    var t := Apply(s, step);
    if t.log != s.log {
      var e := t.log[|s.log|];
      assert t.log == s.log + [e];
      forall i, j | 0 <= i < j < |t.log| && t.log[i].Win? && t.log[j].Win?
        ensures ResetWithin(t.log, i, j)
      {
        if j < |s.log| {
          ResetStays(s.log, e, i, j);
        } else {
          assert Submittable(s.row.status);
          ResetStays(s.log, e, i, |s.log|);
        }
      }
      forall i | 0 <= i < |t.log| && t.log[i].Win? && Submittable(t.row.status)
        ensures ResetWithin(t.log, i, |t.log|)
      {
        assert e.Moved? && e.to == t.row.status && t.log[|s.log|] == e;
      }
    }
  }

  /** Between any two wins some other writer must have put the row back to `pending` or `failed`. */
  lemma {:induction false} WinsNeedAReset(states: seq<State>, steps: seq<Step>, i: nat)
    requires Run(states, steps) && i < |states|
    ensures WinsApart(states[i])
  {
    if i > 0 {
      WinsNeedAReset(states, steps, i - 1);
      assert StepAt(states, steps, i - 1);
      StepKeepsWinsApart(states[i - 1], steps[i - 1]);
    }
  }
}
