/** Writers racing on a session. */
module AnchorSessions {
  // Webhook, poll and user writers racing on one anchor session: each reads the row, decides on what it read, and
  // runs a conditional update that commits together with its history and audit rows (src/services/anchor-status.ts).

  import opened Basics
  import opened AnchorStatus

  datatype Source = User | Webhook | Poll

  datatype HistoryRow = HistoryRow(status: Status, source: Source, reason: Option<string>)
  datatype AuditRow = AuditRow(from: Status, to: Status, source: Source, actor: string)

  /** The session row with its history and its `status_changed` audit records, oldest first. */
  datatype Session = Session(userId: string, status: Status, extra: Option<string>, history: seq<HistoryRow>, audit: seq<AuditRow>)

  datatype Params = Params(
    nextStatus: string, source: Source, extraData: Option<string>,
    ownerUserId: Option<string>, expectedCurrentStatus: Option<string>, reason: Option<string>)

  datatype Result = Changed | Unchanged | Forbidden

  function ActorType(source: Source): string {
    match source
    case User => "user"
    case Poll => "worker"
    case Webhook => "system"
  }

  /** Whether a string is the name of this status; see ParsesExactlyNames. */
  predicate Names(text: string, s: Status) {
    ParseStatus(text) == Some(s)
  }

  /** Whether a writer that read a session of `owner` at `seen` goes on to the conditional update, and to what. */
  function Attempt(p: Params, owner: string, seen: Status): Option<Status> {
    match ParseStatus(p.nextStatus)
    case None => None
    case Some(target) =>
      if p.ownerUserId.Some? && p.ownerUserId.value != owner then None
      else if target == seen || !CanTransition(seen, target) then None
      else if p.expectedCurrentStatus.Some? && !Names(p.expectedCurrentStatus.value, seen) then None
      else Some(target)
  }

  lemma NeverToItself(s: Status)
    ensures !CanTransition(s, s)
  {
    TransitionsInWords(s, s);
  }

  /**
   * A writer goes on to its update exactly when the session is its owner's, its status is a known one that the map
   * allows from the status it read, and that status is the one it expected.
   */
  lemma AttemptsIff(p: Params, owner: string, seen: Status, to: Status)
    ensures Attempt(p, owner, seen) == Some(to) <==>
      && Names(p.nextStatus, to) && CanTransition(seen, to)
      && (p.ownerUserId.Some? ==> p.ownerUserId.value == owner)
      && (p.expectedCurrentStatus.Some? ==> p.expectedCurrentStatus.value == Name(seen))
  {
    NeverToItself(seen);
    hide ParseStatus, CanTransition, Name;
    if p.expectedCurrentStatus.Some? { ParsesExactlyNames(p.expectedCurrentStatus.value, seen); }
  }

  /** The session after a won transition: the new status, one history row, one audit row. */
  function Transitioned(session: Session, p: Params, from: Status, to: Status): Session {
    session.(status := to,
             extra := if p.extraData.Some? then p.extraData else session.extra,
             history := session.history + [HistoryRow(to, p.source, p.reason)],
             audit := session.audit + [AuditRow(from, to, p.source, ActorType(p.source))])
  }

  class SessionStore {
    var session: Session

    constructor (userId: string)
      ensures session == Session(userId, Incomplete, None, [], [])
    {
      session := Session(userId, Incomplete, None, [], []);
    }

    /**
     * `applyAnchorSessionTransition`, statement for statement. `others` is what concurrent writers commit
     * between this transaction's read and its update. The status changes exactly when the row read allowed the
     * transition and still had that status at the update, and then history and audit get one row each. Without a
     * change this writer stores its extra data when it delivers the status read once more, and in every other case
     * it writes nothing at all.
     */
    method ApplyTransition(p: Params, others: Session -> Session) returns (result: Result)
      modifies this
      ensures result.Forbidden? <==> p.ownerUserId.Some? && p.ownerUserId.value != old(session).userId
      ensures result.Forbidden? ==> session == old(session)
      ensures result.Changed? <==>
        Attempt(p, old(session).userId, old(session).status).Some? && others(old(session)).status == old(session).status
      ensures result.Changed? ==>
        var before, to := others(old(session)), Attempt(p, old(session).userId, old(session).status).value;
        session == before.(
          status := to, extra := if p.extraData.Some? then p.extraData else before.extra,
          history := before.history + [HistoryRow(to, p.source, p.reason)],
          audit := before.audit + [AuditRow(old(session).status, to, p.source, ActorType(p.source))])
      ensures result.Unchanged? ==>
        session == if Names(p.nextStatus, old(session).status) && p.extraData.Some? then others(old(session)).(extra := p.extraData)
                   else if Attempt(p, old(session).userId, old(session).status).Some? then others(old(session))
                   else old(session)
    {
      var read := session;
      if p.ownerUserId.Some? && read.userId != p.ownerUserId.value { return Forbidden; }
      var known := ParseStatus(p.nextStatus);
      if known.None? { return Unchanged; }
      var current, target := read.status, known.value;
      if target == current {
        if p.extraData.Some? {
          session := others(session);
          session := session.(extra := p.extraData);
        }
        return Unchanged;
      }
      if !CanTransition(current, target) { return Unchanged; }
      if p.expectedCurrentStatus.Some? {
        ParsesExactlyNames(p.expectedCurrentStatus.value, current);
        if p.expectedCurrentStatus.value != Name(current) { return Unchanged; }
      }
      session := others(session);
      if session.status != current { return Unchanged; }
      session := session.(status := target, extra := if p.extraData.Some? then p.extraData else session.extra);
      session := session.(history := session.history + [HistoryRow(target, p.source, p.reason)]);
      session := session.(audit := session.audit + [AuditRow(current, target, p.source, ActorType(p.source))]);
      return Changed;
    }
  }

  // ----- concurrent writers -----

  datatype Phase = Started | HasRead(seen: Status) | Done(result: Result)
  datatype Writer = Writer(params: Params, phase: Phase)

  /** `winners` lists the writers whose update matched, in commit order. */
  datatype State = State(session: Session, writers: map<nat, Writer>, winners: seq<nat>)

  datatype Step = Begin(w: nat, params: Params) | Read(w: nat) | Commit(w: nat) | Abort(w: nat)

  predicate Enabled(s: State, step: Step) {
    match step
    case Begin(w, _) => w !in s.writers
    case Read(w) => w in s.writers && s.writers[w].phase.Started?
    case Commit(w) => w in s.writers && s.writers[w].phase.HasRead?
    case Abort(w) => w in s.writers && !s.writers[w].phase.Done?
  }

  function Finish(s: State, w: nat, result: Result): State
    requires w in s.writers
  {
    s.(writers := s.writers[w := s.writers[w].(phase := Done(result))])
  }

  function DoRead(s: State, w: nat): State
    requires Enabled(s, Read(w))
  {
    var p := s.writers[w].params;
    if p.ownerUserId.Some? && p.ownerUserId.value != s.session.userId then Finish(s, w, Forbidden)
    else s.(writers := s.writers[w := s.writers[w].(phase := HasRead(s.session.status))])
  }

  function DoCommit(s: State, w: nat): State
    requires Enabled(s, Commit(w))
  {
    var p, seen := s.writers[w].params, s.writers[w].phase.seen;
    match Attempt(p, s.session.userId, seen)
    case None =>
      // An idempotent duplicate still stores its extra data.
      if ParseStatus(p.nextStatus) == Some(seen) && p.extraData.Some?
      then Finish(s, w, Unchanged).(session := s.session.(extra := p.extraData))
      else Finish(s, w, Unchanged)
    case Some(target) =>
      if s.session.status != seen then Finish(s, w, Unchanged)
      else Finish(s, w, Changed).(session := Transitioned(s.session, p, seen, target), winners := s.winners + [w])
  }

  function Apply(s: State, step: Step): State
    requires Enabled(s, step)
  {
    match step
    case Begin(w, p) => s.(writers := s.writers[w := Writer(p, Started)])
    case Read(w) => DoRead(s, w)
    case Commit(w) => DoCommit(s, w)
    case Abort(w) => Finish(s, w, Unchanged)
  }

  function Init(userId: string): State {
    State(Session(userId, Incomplete, None, [], []), map[], [])
  }

  ghost predicate StepAt(states: seq<State>, steps: seq<Step>, i: nat)
    requires |states| == |steps| + 1 && i < |steps|
  {
    Enabled(states[i], steps[i]) && states[i + 1] == Apply(states[i], steps[i])
  }

  ghost predicate Run(userId: string, states: seq<State>, steps: seq<Step>) {
    && |states| == |steps| + 1
    && states[0] == Init(userId)
    && forall i :: 0 <= i < |steps| ==> StepAt(states, steps, i)
  }

  // ----- one writer's steps -----

  ghost predicate Is(s: State, w: nat, writer: Writer) {
    w in s.writers && s.writers[w] == writer
  }

  /**
   * The steps of one writer are the transaction of `applyAnchorSessionTransition`: a stranger is refused by what it
   * reads, any other writer remembers the status read, and its commit writes by that status alone.
   */
  lemma StepsAreApplyTransition(s: State, w: nat)
    ensures Enabled(s, Read(w)) ==>
      var p := s.writers[w].params;
      && DoRead(s, w).session == s.session
      && Is(DoRead(s, w), w, Writer(p, if p.ownerUserId.Some? && p.ownerUserId.value != s.session.userId then Done(Forbidden)
                                       else HasRead(s.session.status)))
    ensures Enabled(s, Commit(w)) ==>
      var p, seen, t := s.writers[w].params, s.writers[w].phase.seen, DoCommit(s, w);
      var attempt := Attempt(p, s.session.userId, seen);
      if attempt.Some? && s.session.status == seen
      then Is(t, w, Writer(p, Done(Changed))) && t.session == Transitioned(s.session, p, seen, attempt.value)
      else && Is(t, w, Writer(p, Done(Unchanged)))
           && t.session == if Names(p.nextStatus, seen) && p.extraData.Some? then s.session.(extra := p.extraData) else s.session
  {
    if Enabled(s, Commit(w)) { NeverToItself(s.writers[w].phase.seen); }
  }

  // ----- what every run keeps -----

  /** `incomplete` followed by the history: every status the session has had. */
  function Visited(session: Session): seq<Status> {
    [Incomplete] + seq(|session.history|, i requires 0 <= i < |session.history| => session.history[i].status)
  }

  ghost predicate Edge(path: seq<Status>, i: int)
    requires 0 < i < |path|
  {
    CanTransition(path[i - 1], path[i])
  }

  ghost predicate IsPath(path: seq<Status>) {
    && |path| > 0 && path[0] == Incomplete
    && forall i :: 0 < i < |path| ==> Edge(path, i)
  }

  /** The i-th audit record tells the i-th edge of the path and the source of the i-th history row. */
  ghost predicate Audits(session: Session, path: seq<Status>, i: nat)
    requires i < |session.audit| && i < |session.history| && i + 1 < |path|
  {
    && session.audit[i].from == path[i]
    && session.audit[i].to == path[i + 1]
    && session.audit[i].source == session.history[i].source
    && session.audit[i].actor == (match session.history[i].source case User => "user" case Webhook => "system" case Poll => "worker")
  }

  /** The history is a path of the map ending at the current status, and the audit trail is its edges. */
  ghost predicate Faithful(session: Session) {
    var path := Visited(session);
    && IsPath(path)
    && path[|path| - 1] == session.status
    && |session.audit| == |session.history|
    && forall i :: 0 <= i < |session.audit| ==> Audits(session, path, i)
  }

  /** What the i-th history row owes to the i-th winner: its target, its source, and the status it expected. */
  ghost predicate Owes(session: Session, i: nat, p: Params)
    requires i < |session.history|
  {
    && Names(p.nextStatus, session.history[i].status)
    && p.source == session.history[i].source
    && (p.expectedCurrentStatus.Some? ==> Names(p.expectedCurrentStatus.value, Visited(session)[i]))
    && (p.ownerUserId.Some? ==> p.ownerUserId.value == session.userId)
  }

  /** History rows and writers told `changed: true` correspond one to one. */
  ghost predicate Accounted(s: State) {
    && |s.winners| == |s.session.history|
    && Distinct(s.winners)
    && (forall w :: w in s.winners <==> w in s.writers && s.writers[w].phase == Done(Changed))
    && forall i :: 0 <= i < |s.winners| ==> WonBy(s, i)
  }

  ghost predicate WonBy(s: State, i: nat)
    requires i < |s.winners| && i < |s.session.history|
  {
    s.winners[i] in s.writers && Owes(s.session, i, s.writers[s.winners[i]].params)
  }

  lemma PathExtends(path: seq<Status>, to: Status)
    requires IsPath(path) && CanTransition(path[|path| - 1], to)
    ensures IsPath(path + [to])
  {
    var longer := path + [to];
    forall i | 0 < i < |longer| ensures Edge(longer, i) {
      if i < |path| {
        assert Edge(path, i);
        assert longer[i] == path[i] && longer[i - 1] == path[i - 1];
      }
    }
  }

  lemma WinExtendsPath(session: Session, p: Params, to: Status)
    requires Faithful(session) && CanTransition(session.status, to)
    ensures var after := Transitioned(session, p, session.status, to);
            Faithful(after) && Visited(after) == Visited(session) + [to]
  {
    var after := Transitioned(session, p, session.status, to);
    var path, longer := Visited(session), Visited(after);
    assert longer == path + [to];
    PathExtends(path, to);
    forall i | 0 <= i < |after.audit| ensures Audits(after, longer, i) {
      if i < |session.audit| { assert Audits(session, path, i); }
    }
  }

  /** The new history row is owed to the winner, and the earlier ones to whom they were. */
  lemma WinIsOwed(session: Session, p: Params, to: Status)
    requires Faithful(session) && Attempt(p, session.userId, session.status) == Some(to)
    ensures var after := Transitioned(session, p, session.status, to);
            && Owes(after, |session.history|, p)
            && forall i, q :: 0 <= i < |session.history| && Owes(session, i, q) ==> Owes(after, i, q)
  {
    WinExtendsPath(session, p, to);
    hide ParseStatus, CanTransition, Faithful;
  }

  lemma WinIsAccounted(s: State, w: nat, to: Status)
    requires Faithful(s.session) && Accounted(s) && Enabled(s, Commit(w))
    requires s.session.status == s.writers[w].phase.seen
    requires Attempt(s.writers[w].params, s.session.userId, s.session.status) == Some(to)
    ensures Accounted(DoCommit(s, w))
  {
    var t, p := DoCommit(s, w), s.writers[w].params;
    WinIsOwed(s.session, p, to);
    hide Attempt, Faithful, Owes;
    forall i | 0 <= i < |t.winners| ensures WonBy(t, i) {
      if i < |s.winners| { assert WonBy(s, i); }
    }
  }

  /** A step that only moves one writer that is not a winner, and leaves status and history alone. */
  lemma QuietStep(s: State, t: State, w: nat)
    requires Faithful(s.session) && Accounted(s)
    requires t.winners == s.winners && t.session == s.session.(extra := t.session.extra)
    requires t.writers.Keys == s.writers.Keys + {w} && forall v :: v in s.writers && v != w ==> t.writers[v] == s.writers[v]
    requires t.writers[w].phase != Done(Changed) && w !in s.winners
    ensures Faithful(t.session) && Accounted(t)
  {
    assert Visited(t.session) == Visited(s.session);
    forall i | 0 <= i < |t.session.audit| ensures Audits(t.session, Visited(t.session), i) {
      assert Audits(s.session, Visited(s.session), i);
    }
    forall i | 0 <= i < |t.winners| ensures WonBy(t, i) {
      assert WonBy(s, i);
      assert s.winners[i] in s.winners;
    }
  }

  lemma StepKeeps(s: State, step: Step)
    requires Faithful(s.session) && Accounted(s) && Enabled(s, step)
    ensures Faithful(Apply(s, step).session) && Accounted(Apply(s, step))
  {
    var t, w := Apply(s, step), step.w;
    if t.winners == s.winners {
      QuietStep(s, t, w);
    } else {
      var p := s.writers[w].params;
      var to := Attempt(p, s.session.userId, s.session.status).value;
      WinExtendsPath(s.session, p, to);
      WinIsAccounted(s, w, to);
    }
  }

  /**
   * In every interleaving: `incomplete` followed by the history is a path of the transition map ending at
   * the row's status, the i-th audit record is the i-th edge, and each history row belongs to exactly one
   * writer that was told it changed the session, from the status that writer expected.
   */
  lemma {:induction false} HistoryIsAPath(userId: string, states: seq<State>, steps: seq<Step>, i: nat)
    requires Run(userId, states, steps) && i < |states|
    ensures Faithful(states[i].session) && Accounted(states[i])
  {
    if i > 0 {
      HistoryIsAPath(userId, states, steps, i - 1);
      assert StepAt(states, steps, i - 1);
      StepKeeps(states[i - 1], steps[i - 1]);
    }
  }

  /** The shape of a session's life. */
  ghost predicate WellShaped(path: seq<Status>) {
    && (forall i :: 0 < i < |path| ==> path[i] != Incomplete && path[i] != path[i - 1])
    && (forall i :: 0 <= i < |path| && path[i] == PendingUserTransferStart ==> i == 1)
    && (forall i :: 0 <= i < |path| && path[i] == Completed ==> i > 0 && IsPending(path[i - 1]))
    && (forall i :: 0 <= i < |path| && IsTerminal(path[i]) ==>
         || i == |path| - 1
         || (i == |path| - 2 && path[i] == Error && path[i + 1] == Refunded))
  }

  lemma EdgeFacts(path: seq<Status>, i: nat)
    requires IsPath(path) && 0 < i < |path|
    ensures path[i] != Incomplete && path[i] != path[i - 1]
    ensures path[i] == Completed ==> IsPending(path[i - 1])
    ensures path[i] == PendingUserTransferStart ==> path[i - 1] == Incomplete
    ensures IsTerminal(path[i - 1]) ==> path[i - 1] == Error && path[i] == Refunded
  {
    assert Edge(path, i);
    TransitionsInWords(path[i - 1], path[i]);
  }

  lemma PathsAreWellShaped(path: seq<Status>)
    requires IsPath(path)
    ensures WellShaped(path)
  {
    forall i | 0 < i < |path| ensures path[i] != Incomplete && path[i] != path[i - 1] {
      EdgeFacts(path, i);
    }
    forall i | 0 <= i < |path| && path[i] == PendingUserTransferStart ensures i == 1 {
      EdgeFacts(path, i);
    }
    forall i | 0 <= i < |path| && path[i] == Completed ensures i > 0 && IsPending(path[i - 1]) {
      EdgeFacts(path, i);
    }
    forall i | 0 <= i < |path| && IsTerminal(path[i])
      ensures i == |path| - 1 || (i == |path| - 2 && path[i] == Error && path[i + 1] == Refunded)
    {
      if i + 1 < |path| { EdgeFacts(path, i + 1); }
      if i + 2 < |path| { EdgeFacts(path, i + 2); }
    }
  }

  /**
   * Over every run `incomplete` is never re-entered, `pending_user_transfer_start` can only come first,
   * `completed` follows a pending status, and nothing follows a terminal status but one `error -> refunded`.
   */
  lemma EverySessionIsWellShaped(userId: string, states: seq<State>, steps: seq<Step>, i: nat)
    requires Run(userId, states, steps) && i < |states|
    ensures WellShaped(Visited(states[i].session))
  {
    HistoryIsAPath(userId, states, steps, i);
    PathsAreWellShaped(Visited(states[i].session));
  }

  /** A session at a final status never changes again: later states keep its status and history. */
  lemma {:induction false} FinalIsFinal(userId: string, states: seq<State>, steps: seq<Step>, i: nat, j: nat)
    requires Run(userId, states, steps) && i <= j < |states|
    requires IsTerminal(states[i].session.status) && states[i].session.status != Error
    ensures states[j].session.status == states[i].session.status
    ensures states[j].session.history == states[i].session.history && states[j].session.audit == states[i].session.audit
    decreases j
  {
    if i < j {
      FinalIsFinal(userId, states, steps, i, j - 1);
      assert StepAt(states, steps, j - 1);
    }
  }

  // ----- the extra data -----

  /** The step stores its writer's extra data: a win, or one more delivery of the status that the writer read. */
  ghost predicate StoresExtra(s: State, step: Step) {
    && step.Commit? && Enabled(s, step) && s.writers[step.w].params.extraData.Some?
    && var p, seen := s.writers[step.w].params, s.writers[step.w].phase.seen;
       || Names(p.nextStatus, seen)
       || (s.session.status == seen && exists to :: Attempt(p, s.session.userId, seen) == Some(to))
  }

  /** The extra data stored last in the first `n` steps. */
  ghost function LastStored(states: seq<State>, steps: seq<Step>, n: nat): Option<string>
    requires |states| == |steps| + 1 && n <= |steps|
  {
    if n == 0 then None
    else if StoresExtra(states[n - 1], steps[n - 1]) then states[n - 1].writers[steps[n - 1].w].params.extraData
    else LastStored(states, steps, n - 1)
  }

  /**
   * In every interleaving the session's extra data are those of the last writer that won or that delivered the
   * status it had read once more: no refused, unknown, stale or losing writer leaves any.
   */
  lemma {:induction false} ExtraIsLastStored(userId: string, states: seq<State>, steps: seq<Step>, i: nat)
    requires Run(userId, states, steps) && i < |states|
    ensures states[i].session.extra == LastStored(states, steps, i)
  {
    if i > 0 {
      ExtraIsLastStored(userId, states, steps, i - 1);
      assert StepAt(states, steps, i - 1);
      StepStoresIff(states[i - 1], steps[i - 1]);
    }
  }

  lemma StepStoresIff(s: State, step: Step)
    requires Enabled(s, step)
    ensures Apply(s, step).session.extra ==
      if StoresExtra(s, step) then s.writers[step.w].params.extraData else s.session.extra
  {
    if step.Commit? {
      var p, seen := s.writers[step.w].params, s.writers[step.w].phase.seen;
      NeverToItself(seen);
      var tried := Attempt(p, s.session.userId, seen);
      assert tried.Some? ==> tried == Some(tried.value) && !Names(p.nextStatus, seen);
    }
  }
}
