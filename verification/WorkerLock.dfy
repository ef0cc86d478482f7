/** Leases on two clocks. */
module WorkerLock {
  // Timed leases on rows of `worker_locks` (src/services/worker-lock.ts). A lease's deadline is written from the
  // client's clock and tested against the database's, so what the protocol keeps depends on how the two differ.

  import opened Basics

  // ----- the table -----

  datatype Lock = Lock(owner: string, expiresAt: int)
  datatype Lease = Lease(key: string, owner: string)

  /** Whether the upsert writes: there is no row to conflict with, or the one there has expired by `at`. */
  predicate Free(locks: map<string, Lock>, key: string, at: int) {
    key in locks ==> locks[key].expiresAt <= at
  }

  /** Whether the delete matches a row. */
  predicate Owns(locks: map<string, Lock>, key: string, owner: string) {
    key in locks && locks[key].owner == owner
  }

  class LockTable {
    var locks: map<string, Lock>

    constructor ()
      ensures locks == map[]
    {
      locks := map[];
    }

    /**
     * `acquireWorkerLease`: the deadline is fixed from the client's clock, `others` is what other workers do
     * before the upsert runs, and `at` is the statement's CURRENT_TIMESTAMP. The lease is granted exactly
     * when the key is free then, and only a grant writes, and only to this key.
     */
    method Acquire(key: string, ttl: int, owner: string, clientNow: int, at: int,
                   others: map<string, Lock> -> map<string, Lock>) returns (lease: Option<Lease>)
      modifies this
      ensures lease.Some? <==> Free(others(old(locks)), key, at)
      ensures lease.Some? ==> lease.value == Lease(key, owner)
      ensures lease.Some? ==> locks == others(old(locks))[key := Lock(owner, clientNow + ttl)]
      ensures lease.None? ==> locks == others(old(locks))
    {
      var expiresAt := clientNow + ttl;
      locks := others(locks);
      var updated := 0;
      if key !in locks {
        locks := locks[key := Lock(owner, expiresAt)];
        updated := 1;
      } else if locks[key].expiresAt <= at {
        locks := locks[key := locks[key].(owner := owner, expiresAt := expiresAt)];
        updated := 1;
      }
      if updated == 1 { lease := Some(Lease(key, owner)); } else { lease := None; }
    }

    /** `releaseWorkerLease`: the row goes exactly when it names the lease's owner; every other row stays. */
    method Release(lease: Lease)
      modifies this
      ensures locks == if Owns(old(locks), lease.key, lease.owner) then old(locks) - {lease.key} else old(locks)
    {
      if lease.key in locks && locks[lease.key].owner == lease.owner {
        locks := locks - {lease.key};
      }
    }
  }

  // ----- runs -----

  /**
   * `time` is the database's clock when the statement took effect; `grant` is the position in the log of the
   * grant whose lease is given back, `removed` that of the grant whose row went.
   */
  datatype Event =
    | Granted(key: string, owner: string, expiresAt: int, time: int)
    | Released(key: string, owner: string, grant: nat, removed: Option<nat>)

  /** `holder` says which grant wrote each row. */
  datatype State = State(now: int, locks: map<string, Lock>, holder: map<string, nat>, log: seq<Event>)

  /** An attempt carries the client's clock reading and the timestamp its statement started with. */
  datatype Step =
    | Tick(now: int)
    | Attempt(key: string, owner: string, ttl: int, clientNow: int, at: int)
    | GiveBack(grant: nat)

  const Init := State(0, map[], map[], [])

  predicate Enabled(s: State, step: Step) {
    match step
    case Tick(now) => now >= s.now
    case Attempt(_, _, _, _, at) => at <= s.now
    case GiveBack(g) => g < |s.log| && s.log[g].Granted?
  }

  function DoAttempt(s: State, key: string, owner: string, expiresAt: int, at: int): State {
    if Free(s.locks, key, at) then
      State(s.now, s.locks[key := Lock(owner, expiresAt)], s.holder[key := |s.log|],
            s.log + [Granted(key, owner, expiresAt, s.now)])
    else s
  }

  function DoGiveBack(s: State, g: nat): State
    requires Enabled(s, GiveBack(g))
  {
    var key, owner := s.log[g].key, s.log[g].owner;
    if Owns(s.locks, key, owner) then
      State(s.now, s.locks - {key}, s.holder - {key},
            s.log + [Released(key, owner, g, if key in s.holder then Some(s.holder[key]) else None)])
    else s.(log := s.log + [Released(key, owner, g, None)])
  }

  function Apply(s: State, step: Step): State
    requires Enabled(s, step)
  {
    match step
    case Tick(now) => s.(now := now)
    case Attempt(key, owner, ttl, clientNow, at) => DoAttempt(s, key, owner, clientNow + ttl, at)
    case GiveBack(g) => DoGiveBack(s, g)
  }

  ghost predicate StepAt(states: seq<State>, steps: seq<Step>, i: nat)
    requires |states| == |steps| + 1 && i < |steps|
  {
    Enabled(states[i], steps[i]) && states[i + 1] == Apply(states[i], steps[i])
  }

  ghost predicate Run(states: seq<State>, steps: seq<Step>) {
    && |states| == |steps| + 1
    && states[0] == Init
    && forall i :: 0 <= i < |steps| ==> StepAt(states, steps, i)
  }

  // ----- the invariant -----

  predicate IsGrant(log: seq<Event>, i: int) {
    0 <= i < |log| && log[i].Granted?
  }

  /** A release of grant i's owner took effect after grant i and before position `to`. */
  ghost predicate ReleasedWithin(log: seq<Event>, i: int, to: int)
    requires IsGrant(log, i)
  {
    exists k :: i < k < to && ReleaseAt(log, k, log[i].key, log[i].owner)
  }

  predicate ReleaseAt(log: seq<Event>, k: int, key: string, owner: string) {
    0 <= k < |log| && log[k].Released? && log[k].key == key && log[k].owner == owner
  }

  /** Grants i and j of one key do not overlap: i's owner released in between, or i had expired when j came. */
  ghost predicate Separated(log: seq<Event>, i: int, j: int)
    requires IsGrant(log, i) && IsGrant(log, j)
  {
    ReleasedWithin(log, i, j) || log[i].expiresAt <= log[j].time
  }

  predicate Current(s: State, i: nat)
    requires IsGrant(s.log, i)
  {
    s.log[i].key in s.holder && s.holder[s.log[i].key] == i
  }

  ghost predicate Ended(s: State, i: nat)
    requires IsGrant(s.log, i)
  {
    ReleasedWithin(s.log, i, |s.log|) || s.log[i].expiresAt <= s.now
  }

  /** Every row is the row of the grant that wrote it. */
  ghost predicate RowsAreGrants(s: State) {
    && s.locks.Keys == s.holder.Keys
    && forall key :: key in s.holder ==>
         IsGrant(s.log, s.holder[key]) && RowOf(s.log[s.holder[key]], key, s.locks[key])
  }

  predicate RowOf(e: Event, key: string, row: Lock) {
    e.Granted? && e.key == key && row == Lock(e.owner, e.expiresAt)
  }

  ghost predicate OthersEnded(s: State) {
    forall i: nat :: IsGrant(s.log, i) && !Current(s, i) ==> Ended(s, i)
  }

  ghost predicate Disjoint(s: State) {
    forall i: nat, j: nat :: i < j && IsGrant(s.log, i) && IsGrant(s.log, j) && s.log[i].key == s.log[j].key ==>
      Separated(s.log, i, j)
  }

  ghost predicate Inv(s: State) {
    RowsAreGrants(s) && OthersEnded(s) && Disjoint(s)
  }

  lemma WithinGrows(log: seq<Event>, e: Event, i: int, to: int)
    requires IsGrant(log, i) && ReleasedWithin(log, i, to)
    ensures ReleasedWithin(log + [e], i, to) && ReleasedWithin(log + [e], i, |log| + 1)
  {
    var k :| i < k < to && ReleaseAt(log, k, log[i].key, log[i].owner);
    var grown := log + [e];
    assert ReleaseAt(grown, k, grown[i].key, grown[i].owner) && k < |log|;
  }

  lemma DisjointGrows(s: State, t: State, e: Event)
    requires Disjoint(s) && t.log == s.log + [e]
    requires e.Granted? ==>
      forall i: nat :: IsGrant(s.log, i) && s.log[i].key == e.key ==> ReleasedWithin(s.log, i, |s.log|) || s.log[i].expiresAt <= e.time
    ensures Disjoint(t)
  {
    forall i: nat, j: nat | i < j && IsGrant(t.log, i) && IsGrant(t.log, j) && t.log[i].key == t.log[j].key
      ensures Separated(t.log, i, j)
    {
      if j < |s.log| {
        assert Separated(s.log, i, j);
        if ReleasedWithin(s.log, i, j) { WithinGrows(s.log, e, i, j); }
      } else if ReleasedWithin(s.log, i, |s.log|) {
        WithinGrows(s.log, e, i, |s.log|);
      }
    }
  }

  lemma EndedGrows(s: State, t: State, e: Event, i: nat)
    requires IsGrant(s.log, i) && Ended(s, i) && t.log == s.log + [e] && t.now == s.now
    ensures Ended(t, i)
  {
    if ReleasedWithin(s.log, i, |s.log|) { WithinGrows(s.log, e, i, |s.log|); }
  }

  lemma AttemptKeeps(s: State, key: string, owner: string, expiresAt: int, at: int)
    requires Inv(s) && at <= s.now
    ensures Inv(DoAttempt(s, key, owner, expiresAt, at))
  {
    var t := DoAttempt(s, key, owner, expiresAt, at);
    if Free(s.locks, key, at) {
      var e := Granted(key, owner, expiresAt, s.now);
      forall i: nat | IsGrant(s.log, i) && s.log[i].key == key ensures Ended(s, i) {
        if Current(s, i) { assert RowOf(s.log[i], key, s.locks[key]); }
      }
      DisjointGrows(s, t, e);
      forall i: nat | IsGrant(t.log, i) && !Current(t, i) ensures Ended(t, i) {
        EndedGrows(s, t, e, i);
      }
    }
  }

  lemma GiveBackKeeps(s: State, g: nat)
    requires Inv(s) && Enabled(s, GiveBack(g))
    ensures Inv(DoGiveBack(s, g))
  {
    var t := DoGiveBack(s, g);
    var e := t.log[|s.log|];
    DisjointGrows(s, t, e);
    forall i: nat | IsGrant(t.log, i) && !Current(t, i) ensures Ended(t, i) {
      if Current(s, i) {
        assert RowOf(s.log[i], e.key, s.locks[e.key]);
        assert ReleaseAt(t.log, |s.log|, t.log[i].key, t.log[i].owner);
      } else {
        EndedGrows(s, t, e, i);
      }
    }
  }

  lemma StepKeeps(s: State, step: Step)
    requires Inv(s) && Enabled(s, step)
    ensures Inv(Apply(s, step))
  {
    match step
    case Tick(now) =>
      assert forall i: nat :: IsGrant(s.log, i) && !Current(s, i) ==> Ended(s, i);
    case Attempt(key, owner, ttl, clientNow, at) =>
      AttemptKeeps(s, key, owner, clientNow + ttl, at);
    case GiveBack(g) =>
      GiveBackKeeps(s, g);
  }

  lemma {:induction false} RunKeepsInv(states: seq<State>, steps: seq<Step>, n: nat)
    requires Run(states, steps) && n < |states|
    ensures Inv(states[n])
  {
    if n > 0 {
      hide Inv, Enabled, Apply;
      RunKeepsInv(states, steps, n - 1);
      assert StepAt(states, steps, n - 1);
      StepKeeps(states[n - 1], steps[n - 1]);
    }
  }

  // ----- what holders can rely on -----

  /** A lease that has neither expired, by the database's clock, nor been released by its owner. */
  ghost predicate Live(s: State, i: nat) {
    IsGrant(s.log, i) && !Ended(s, i)
  }

  /** Mutual exclusion: at any moment a key has at most one live lease, and its row is in the table. */
  lemma OneLiveLease(states: seq<State>, steps: seq<Step>, n: nat, i: nat)
    requires Run(states, steps) && n < |states| && Live(states[n], i)
    ensures var s := states[n];
            && Owns(s.locks, s.log[i].key, s.log[i].owner)
            && s.locks[s.log[i].key].expiresAt == s.log[i].expiresAt
            && forall j: nat :: Live(s, j) && s.log[j].key == s.log[i].key ==> j == i
  {
    RunKeepsInv(states, steps, n);
    var s := states[n];
    assert Current(s, i) && RowOf(s.log[i], s.log[i].key, s.locks[s.log[i].key]);
  }

  /**
   * A client that was at most `d` behind the database when its statement took effect, clock skew and delay
   * together, keeps its key to itself for `ttl - d` unless its owner releases.
   */
  lemma GrantsAreApart(states: seq<State>, steps: seq<Step>, n: nat, i: nat, j: nat, clientNow: int, ttl: int, d: int)
    requires Run(states, steps) && n < |states| && i < j
    requires IsGrant(states[n].log, i) && IsGrant(states[n].log, j) && states[n].log[i].key == states[n].log[j].key
    requires states[n].log[i].expiresAt == clientNow + ttl && states[n].log[i].time - clientNow <= d
    requires !ReleasedWithin(states[n].log, i, j)
    ensures states[n].log[j].time >= states[n].log[i].time + ttl - d
  {
    RunKeepsInv(states, steps, n);
    assert Separated(states[n].log, i, j);
  }

  /** The bound is exact: for every ttl and lag there is a run whose second grant comes precisely `ttl - d` later. */
  lemma GapIsTight(ttl: nat, d: nat, key: string, a: string, b: string) returns (states: seq<State>, steps: seq<Step>)
    requires d <= ttl
    ensures Run(states, steps)
    ensures states[|steps|].log == [Granted(key, a, ttl, d), Granted(key, b, 2 * ttl, ttl)]
  {
    var first, second := Granted(key, a, ttl, d), Granted(key, b, 2 * ttl, ttl);
    steps := [Tick(d), Attempt(key, a, ttl, 0, d), Tick(ttl), Attempt(key, b, ttl, ttl, ttl)];
    var s1 := State(d, map[], map[], []);
    var s2 := State(d, map[key := Lock(a, ttl)], map[key := 0], [first]);
    var s3 := s2.(now := ttl);
    var s4 := State(ttl, map[key := Lock(b, 2 * ttl)], map[key := 1], [first, second]);
    states := [Init, s1, s2, s3, s4];
    assert Apply(s1, steps[1]) == s2;
    assert s3.locks[key := Lock(b, 2 * ttl)] == s4.locks && s3.holder[key := 1] == s4.holder;
    assert Apply(s3, steps[3]) == s4;
    assert forall i :: 0 <= i < |steps| ==> StepAt(states, steps, i);
  }

  /**
   * A holder that dies is replaced: once the clock has passed its deadline, which lies at most `ttl + ahead`
   * after the grant for a client at most `ahead` of the database, any attempt on the key succeeds.
   */
  lemma DeadHolderIsReplaced(states: seq<State>, steps: seq<Step>, n: nat, i: nat, clientNow: int, ttl: int, ahead: int,
                             at: int, owner: string, expiresAt: int)
    requires Run(states, steps) && n < |states| && IsGrant(states[n].log, i) && Current(states[n], i)
    requires states[n].log[i].expiresAt == clientNow + ttl && clientNow - states[n].log[i].time <= ahead
    requires states[n].log[i].time + ttl + ahead <= at <= states[n].now
    ensures var s := states[n]; var t := DoAttempt(s, s.log[i].key, owner, expiresAt, at);
            Free(s.locks, s.log[i].key, at) && Live(t, |s.log|) == (expiresAt > s.now) && Current(t, |s.log|)
  {
    RunKeepsInv(states, steps, n);
    var s := states[n];
    assert RowOf(s.log[i], s.log[i].key, s.locks[s.log[i].key]);
  }

  /** A key without a live lease may still be denied, but never beyond the deadline written in its row. */
  lemma DeniedIffRowUnexpired(states: seq<State>, steps: seq<Step>, n: nat, key: string, at: int)
    requires Run(states, steps) && n < |states|
    ensures !Free(states[n].locks, key, at) <==>
              exists i: nat :: IsGrant(states[n].log, i) && states[n].log[i].key == key && Current(states[n], i)
                               && at < states[n].log[i].expiresAt
  {
    RunKeepsInv(states, steps, n);
    var s := states[n];
    if key in s.locks {
      var i := s.holder[key];
      assert IsGrant(s.log, i) && RowOf(s.log[i], key, s.locks[key]) && Current(s, i);
    }
  }

  // ----- releases -----

  /** While a later grant h has the key, giving back grant g leaves h's row alone exactly when the owners differ. */
  lemma SuccessorSparedIff(states: seq<State>, steps: seq<Step>, n: nat, g: nat, h: nat)
    requires Run(states, steps) && n < |states| && g < h && IsGrant(states[n].log, g) && IsGrant(states[n].log, h)
    requires states[n].log[g].key == states[n].log[h].key && Current(states[n], h)
    ensures var s := states[n]; var t := DoGiveBack(s, g);
            && (Current(t, h) <==> s.log[h].owner != s.log[g].owner)
            && (s.log[h].owner != s.log[g].owner ==> t.locks == s.locks)
  {
    RunKeepsInv(states, steps, n);
    var s := states[n];
    assert RowOf(s.log[h], s.log[h].key, s.locks[s.log[h].key]);
  }

  // ----- whose row a release removes -----

  /** Another grant of g's owner has g's key now. */
  predicate Overtaken(s: State, g: nat)
    requires IsGrant(s.log, g)
  {
    var key := s.log[g].key;
    key in s.holder && s.holder[key] != g && IsGrant(s.log, s.holder[key]) && s.log[s.holder[key]].owner == s.log[g].owner
  }

  /** A release gave back its own lease or, that being gone, nothing. */
  predicate Spared(e: Event) {
    e.Released? ==> e.removed in {None, Some(e.grant)}
  }

  ghost predicate AllSpared(log: seq<Event>) {
    forall k :: 0 <= k < |log| ==> Spared(log[k])
  }

  lemma GiveBackSparesIff(s: State, g: nat)
    requires RowsAreGrants(s) && Enabled(s, GiveBack(g))
    ensures var t := DoGiveBack(s, g);
            |t.log| == |s.log| + 1 && t.log[..|s.log|] == s.log && (Spared(t.log[|s.log|]) <==> !Overtaken(s, g))
  {
    var key := s.log[g].key;
    if key in s.holder { assert RowOf(s.log[s.holder[key]], key, s.locks[key]); }
  }

  ghost predicate NeverOvertaken(states: seq<State>, steps: seq<Step>, n: nat)
    requires |states| == |steps| + 1 && n <= |steps|
  {
    forall i :: 0 <= i < n ==> SpareStep(states[i], steps[i])
  }

  predicate SpareStep(s: State, step: Step) {
    step.GiveBack? && IsGrant(s.log, step.grant) ==> !Overtaken(s, step.grant)
  }

  lemma StepSparesIff(s: State, step: Step)
    requires RowsAreGrants(s) && Enabled(s, step)
    ensures AllSpared(Apply(s, step).log) <==> AllSpared(s.log) && SpareStep(s, step)
    ensures s.log <= Apply(s, step).log
  {
    var t := Apply(s, step);
    if step.GiveBack? {
      GiveBackSparesIff(s, step.grant);
      hide Spared, Overtaken, DoGiveBack;
      assert AllSpared(t.log) ==> AllSpared(s.log) by {
        assert forall k :: 0 <= k < |s.log| ==> t.log[k] == s.log[k];
      }
    } else {
      assert forall k :: 0 <= k < |s.log| ==> t.log[k] == s.log[k];
    }
  }

  /**
   * Releases spare every other lease exactly when none is executed for a grant whose key another grant of the
   * same owner has by then: something the owner can see to before it releases.
   */
  lemma {:induction false} ReleasesSpareIff(states: seq<State>, steps: seq<Step>, n: nat)
    requires Run(states, steps) && n < |states|
    ensures AllSpared(states[n].log) <==> NeverOvertaken(states, steps, n)
  {
    if n > 0 {
      ReleasesSpareIff(states, steps, n - 1);
      RunKeepsInv(states, steps, n - 1);
      assert StepAt(states, steps, n - 1);
      StepSparesIff(states[n - 1], steps[n - 1]);
      hide Inv, Run, StepAt, AllSpared, SpareStep;
    }
  }

  /** The grant that has a key is the last one on it. */
  ghost predicate HoldersAreLast(s: State) {
    forall i: nat :: IsGrant(s.log, i) && s.log[i].key in s.holder ==> i <= s.holder[s.log[i].key]
  }

  lemma {:induction false} HoldersAreLastAt(states: seq<State>, steps: seq<Step>, n: nat)
    requires Run(states, steps) && n < |states|
    ensures HoldersAreLast(states[n])
  {
    if n > 0 {
      HoldersAreLastAt(states, steps, n - 1);
      assert StepAt(states, steps, n - 1);
      StepKeepsLast(states[n - 1], steps[n - 1]);
    }
  }

  lemma StepKeepsLast(s: State, step: Step)
    requires HoldersAreLast(s) && Enabled(s, step)
    ensures HoldersAreLast(Apply(s, step))
  {
    var t := Apply(s, step);
    forall i: nat | IsGrant(t.log, i) && t.log[i].key in t.holder ensures i <= t.holder[t.log[i].key] {
      if i < |s.log| { assert IsGrant(s.log, i) && t.log[i] == s.log[i]; }
    }
  }

  // ----- owners that take their leases one after the other -----

  /** No later grant has the owner of grant g. */
  ghost predicate LatestOfOwner(log: seq<Event>, g: nat)
    requires IsGrant(log, g)
  {
    forall j: nat :: g < j && IsGrant(log, j) ==> log[j].owner != log[g].owner
  }

  /**
   * A lease is given back, if at all, before its owner is granted another; owners may be reused, and a lease
   * whose release failed is left to expire.
   */
  ghost predicate SerialRun(states: seq<State>, steps: seq<Step>) {
    |states| == |steps| + 1 && forall i :: 0 <= i < |steps| ==> SerialStep(states[i], steps[i])
  }

  ghost predicate SerialStep(s: State, step: Step) {
    step.GiveBack? && IsGrant(s.log, step.grant) ==> LatestOfOwner(s.log, step.grant)
  }

  lemma LatestIsNotOvertaken(s: State, g: nat)
    requires HoldersAreLast(s) && IsGrant(s.log, g) && LatestOfOwner(s.log, g)
    ensures !Overtaken(s, g)
  {
  }

  /** When each owner takes its leases one after the other, no release ever removes a successor's lease. */
  lemma ReleaseSparesSuccessors(states: seq<State>, steps: seq<Step>, n: nat, k: nat)
    requires Run(states, steps) && SerialRun(states, steps) && n < |states|
    requires k < |states[n].log| && states[n].log[k].Released?
    ensures states[n].log[k].removed in {None, Some(states[n].log[k].grant)}
  {
    forall i | 0 <= i < n ensures SpareStep(states[i], steps[i]) {
      assert SerialStep(states[i], steps[i]);
      if steps[i].GiveBack? && IsGrant(states[i].log, steps[i].grant) {
        HoldersAreLastAt(states, steps, i);
        LatestIsNotOvertaken(states[i], steps[i].grant);
      }
    }
    ReleasesSpareIff(states, steps, n);
    assert Spared(states[n].log[k]);
  }

  ghost predicate GivenBack(log: seq<Event>, g: nat) {
    exists k :: g < k < |log| && GaveBack(log[k], g)
  }

  predicate GaveBack(e: Event, g: nat) {
    e.Released? && e.grant == g
  }

  /** Owners await their releases: nothing is attempted before every lease of one's own is given back, once. */
  ghost predicate Awaited(s: State, step: Step) {
    match step
    case Tick(_) => true
    case Attempt(_, owner, _, _, _) => forall g: nat :: IsGrant(s.log, g) && s.log[g].owner == owner ==> GivenBack(s.log, g)
    case GiveBack(g) => !GivenBack(s.log, g)
  }

  ghost predicate AwaitedRun(states: seq<State>, steps: seq<Step>) {
    |states| == |steps| + 1 && forall i :: 0 <= i < |steps| ==> Awaited(states[i], steps[i])
  }

  ghost predicate OlderGivenBack(log: seq<Event>) {
    forall g: nat, j: nat :: g < j && IsGrant(log, g) && IsGrant(log, j) && log[g].owner == log[j].owner ==> GivenBack(log, g)
  }

  lemma GivenBackStays(log: seq<Event>, more: seq<Event>, g: nat)
    requires log <= more && GivenBack(log, g)
    ensures GivenBack(more, g)
  {
    var k :| g < k < |log| && GaveBack(log[k], g);
    assert GaveBack(more[k], g);
  }

  lemma AwaitedStepKeeps(s: State, step: Step)
    requires RowsAreGrants(s) && OlderGivenBack(s.log) && Enabled(s, step) && Awaited(s, step)
    ensures OlderGivenBack(Apply(s, step).log)
  {
    StepSparesIff(s, step);
    var t := Apply(s, step);
    forall g: nat, j: nat | g < j && IsGrant(t.log, g) && IsGrant(t.log, j) && t.log[g].owner == t.log[j].owner
      ensures GivenBack(t.log, g)
    {
      assert IsGrant(s.log, g) && t.log[g] == s.log[g];
      if j < |s.log| { assert IsGrant(s.log, j) && t.log[j] == s.log[j]; }
      GivenBackStays(s.log, t.log, g);
    }
  }

  lemma {:induction false} OlderGivenBackAt(states: seq<State>, steps: seq<Step>, n: nat)
    requires Run(states, steps) && AwaitedRun(states, steps) && n < |states|
    ensures OlderGivenBack(states[n].log)
  {
    if n > 0 {
      OlderGivenBackAt(states, steps, n - 1);
      RunKeepsInv(states, steps, n - 1);
      assert StepAt(states, steps, n - 1) && Awaited(states[n - 1], steps[n - 1]);
      AwaitedStepKeeps(states[n - 1], steps[n - 1]);
    }
  }

  /** A process that awaits its release before the next attempt, under one owner name, is serial. */
  lemma AwaitedRunsAreSerial(states: seq<State>, steps: seq<Step>)
    requires Run(states, steps) && AwaitedRun(states, steps)
    ensures SerialRun(states, steps)
  {
    forall i | 0 <= i < |steps| ensures SerialStep(states[i], steps[i]) {
      OlderGivenBackAt(states, steps, i);
      assert Awaited(states[i], steps[i]);
    }
  }

  /** No two grants share an owner, as when the owner is a fresh random identifier. */
  ghost predicate DistinctOwners(log: seq<Event>) {
    forall i: nat, j: nat :: IsGrant(log, i) && IsGrant(log, j) && log[i].owner == log[j].owner ==> i == j
  }

  lemma {:induction false} LogGrows(states: seq<State>, steps: seq<Step>, i: nat, n: nat)
    requires Run(states, steps) && i <= n < |states|
    ensures states[i].log <= states[n].log
    decreases n
  {
    if i < n {
      LogGrows(states, steps, i, n - 1);
      RunKeepsInv(states, steps, n - 1);
      assert StepAt(states, steps, n - 1);
      StepSparesIff(states[n - 1], steps[n - 1]);
    }
  }

  /** An owner per lease, the default, is serial whenever its releases run. */
  lemma FreshOwnersAreSerial(states: seq<State>, steps: seq<Step>)
    requires Run(states, steps) && DistinctOwners(states[|steps|].log)
    ensures SerialRun(states, steps)
  {
    var last := states[|steps|].log;
    forall i | 0 <= i < |steps| ensures SerialStep(states[i], steps[i]) {
      LogGrows(states, steps, i, |steps|);
      var log := states[i].log;
      if steps[i].GiveBack? && IsGrant(log, steps[i].grant) {
        forall j: nat | steps[i].grant < j && IsGrant(log, j) ensures log[j].owner != log[steps[i].grant].owner {
          assert last[j] == log[j] && last[steps[i].grant] == log[steps[i].grant];
          assert IsGrant(last, j) && IsGrant(last, steps[i].grant);
        }
      }
    }
  }

  /**
   * Being serial is needed: a run, which no caller in the repository makes, in which one owner holds two leases
   * of a key at once and the release of the first, expired one removes the live row of the second.
   */
  lemma OverlappingLeasesCollide(key: string, owner: string, ttl: nat) returns (states: seq<State>, steps: seq<Step>)
    requires ttl > 0
    ensures Run(states, steps) && !SerialRun(states, steps) && |states[|steps|].log| == 3
    ensures states[|steps|].log[2] == Released(key, owner, 0, Some(1))
    ensures Live(states[|steps| - 1], 1) && key !in states[|steps|].locks
  {
    var first, second := Granted(key, owner, ttl, 0), Granted(key, owner, 2 * ttl, ttl);
    steps := [Attempt(key, owner, ttl, 0, 0), Tick(ttl), Attempt(key, owner, ttl, ttl, ttl), GiveBack(0)];
    var s1 := State(0, map[key := Lock(owner, ttl)], map[key := 0], [first]);
    var s2 := s1.(now := ttl);
    var s3 := State(ttl, map[key := Lock(owner, 2 * ttl)], map[key := 1], [first, second]);
    var s4 := State(ttl, map[], map[], [first, second, Released(key, owner, 0, Some(1))]);
    states := [Init, s1, s2, s3, s4];
    assert Apply(Init, steps[0]) == s1;
    assert s2.locks[key := Lock(owner, 2 * ttl)] == s3.locks && s2.holder[key := 1] == s3.holder;
    assert Apply(s2, steps[2]) == s3;
    assert s3.locks - {key} == s4.locks && s3.holder - {key} == s4.holder;
    assert Apply(s3, steps[3]) == s4;
    assert forall i :: 0 <= i < |steps| ==> StepAt(states, steps, i);
    assert !ReleasedWithin(s3.log, 1, 2);
    assert IsGrant(s3.log, 1) && !LatestOfOwner(s3.log, 0);
    assert !SerialStep(states[3], steps[3]);
  }
}
