/** The circuit breaker. */
module AnchorCircuit {
  // The per-provider circuit breaker (src/services/anchor-circuit.ts), with every clock reading passed in.

  import opened Basics

  datatype CircuitState = Closed | Open | HalfOpen
  datatype Circuit = Circuit(state: CircuitState, failures: nat, openedAt: Option<int>, lastFailureAt: Option<int>)

  datatype Settings = Settings(threshold: int, cooldown: int)

  const FRESH := Circuit(Closed, 0, None, None)

  // ----- one circuit -----

  /** What is done to one provider's circuit; `now` is the clock when the call reads it. */
  datatype Op = Failure(now: int) | Success | Query(now: int) | Reset

  /** JavaScript reads `!openedAt` as true for null and for 0. */
  predicate NoOpening(openedAt: Option<int>) {
    openedAt.None? || openedAt.value == 0
  }

  predicate Trips(b: Settings, c: Circuit) {
    c.failures + 1 >= b.threshold && c.state.Closed?
  }

  predicate Blocks(b: Settings, c: Circuit, now: int) {
    c.state.Open? && !NoOpening(c.openedAt) && now - c.openedAt.value < b.cooldown
  }

  /** What the call returns, for the two calls that return something. */
  predicate Answer(b: Settings, c: Circuit, op: Op) {
    match op
    case Failure(_) => Trips(b, c)
    case Query(now) => Blocks(b, c, now)
    case _ => false
  }

  function Next(b: Settings, c: Circuit, op: Op): Circuit {
    match op
    case Failure(now) =>
      if Trips(b, c) then Circuit(Open, c.failures + 1, Some(now), Some(now))
      else Circuit(c.state, c.failures + 1, c.openedAt, Some(now))
    case Success => if c.state.Closed? then c else FRESH
    case Query(now) =>
      if c.state.Open? && !NoOpening(c.openedAt) && !Blocks(b, c, now) then c.(state := HalfOpen) else c
    case Reset => FRESH
  }

  /** A provider that was never named has a fresh circuit. */
  function Lookup(circuits: map<string, Circuit>, provider: string): Circuit {
    if provider in circuits then circuits[provider] else FRESH
  }

  class AnchorCircuitBreaker {
    const settings: Settings
    var circuits: map<string, Circuit>

    constructor (failureThreshold: Option<int>, cooldownMs: Option<int>)
      ensures circuits == map[]
      ensures settings.threshold == if failureThreshold.Some? then failureThreshold.value else 5
      ensures settings.cooldown == if cooldownMs.Some? then cooldownMs.value else 30_000
    {
      settings := Settings(if failureThreshold.Some? then failureThreshold.value else 5,
                           if cooldownMs.Some? then cooldownMs.value else 30_000);
      circuits := map[];
    }

    method Get(provider: string) returns (circuit: Circuit)
      modifies this`circuits
      ensures circuit == Lookup(old(circuits), provider)
      ensures circuits == old(circuits)[provider := circuit]
    {
      if provider in circuits {
        circuit := circuits[provider];
      } else {
        circuit := FRESH;
        circuits := circuits[provider := circuit];
      }
    }

    method RecordFailure(provider: string, clock: int) returns (justOpened: bool)
      modifies this`circuits
      ensures circuits == old(circuits)[provider := Next(settings, Lookup(old(circuits), provider), Failure(clock))]
      ensures justOpened == Answer(settings, Lookup(old(circuits), provider), Failure(clock))
    {
      var circuit := Get(provider);
      var updated := Circuit(circuit.state, circuit.failures + 1, circuit.openedAt, Some(clock));
      if updated.failures >= settings.threshold && circuit.state.Closed? {
        updated := updated.(state := Open);
        updated := updated.(openedAt := updated.lastFailureAt);
        circuits := circuits[provider := updated];
        return true;
      }
      circuits := circuits[provider := updated];
      return false;
    }

    method RecordSuccess(provider: string)
      modifies this`circuits
      ensures circuits == old(circuits)[provider := Next(settings, Lookup(old(circuits), provider), Success)]
    {
      var circuit := Get(provider);
      if !circuit.state.Closed? {
        circuits := circuits[provider := Circuit(Closed, 0, None, None)];
      }
    }

    method IsOpen(provider: string, clock: int) returns (blocked: bool)
      modifies this`circuits
      ensures circuits == old(circuits)[provider := Next(settings, Lookup(old(circuits), provider), Query(clock))]
      ensures blocked == Answer(settings, Lookup(old(circuits), provider), Query(clock))
    {
      var circuit := Get(provider);
      if circuit.state.Closed? { return false; }
      if circuit.state.HalfOpen? { return false; }
      if circuit.openedAt.None? || circuit.openedAt.value == 0 { return false; }
      var elapsed := clock - circuit.openedAt.value;
      if elapsed >= settings.cooldown {
        circuits := circuits[provider := Circuit(HalfOpen, circuit.failures, circuit.openedAt, circuit.lastFailureAt)];
        return false;
      }
      return true;
    }

    method ResetProvider(provider: string)
      modifies this`circuits
      ensures circuits == old(circuits)[provider := Next(settings, Lookup(old(circuits), provider), Reset)]
    {
      var _ := Get(provider);
      circuits := circuits[provider := Circuit(Closed, 0, None, None)];
    }
  }

  // ----- call sequences -----

  datatype Call = Call(provider: string, op: Op)

  function AfterAll(b: Settings, calls: seq<Call>): map<string, Circuit> {
    if calls == [] then map[]
    else
      var before, call := AfterAll(b, calls[..|calls| - 1]), calls[|calls| - 1];
      before[call.provider := Next(b, Lookup(before, call.provider), call.op)]
  }

  /** The circuit of one provider after a sequence of calls on it alone. */
  function After(b: Settings, ops: seq<Op>): Circuit {
    if ops == [] then FRESH else Next(b, After(b, ops[..|ops| - 1]), ops[|ops| - 1])
  }

  function Only(calls: seq<Call>, provider: string): seq<Op> {
    if calls == [] then []
    else
      Only(calls[..|calls| - 1], provider)
      + if calls[|calls| - 1].provider == provider then [calls[|calls| - 1].op] else []
  }

  lemma AfterOne(b: Settings, ops: seq<Op>, op: Op)
    ensures After(b, ops + [op]) == Next(b, After(b, ops), op)
  {
    assert (ops + [op])[..|ops|] == ops;
  }

  /**
   * Providers do not touch each other: a provider's circuit after any calls is what the calls on it alone
   * make it. What follows about one provider's calls therefore holds inside every mixed sequence.
   */
  lemma {:induction false} ProvidersAreIndependent(b: Settings, calls: seq<Call>, provider: string)
    ensures Lookup(AfterAll(b, calls), provider) == After(b, Only(calls, provider))
  {
    if calls != [] {
      var front, call := calls[..|calls| - 1], calls[|calls| - 1];
      ProvidersAreIndependent(b, front, provider);
      if call.provider == provider {
        AfterOne(b, Only(front, provider), call.op);
      } else {
        assert Only(calls, provider) == Only(front, provider);
      }
    }
  }

  lemma AfterPrefix(b: Settings, ops: seq<Op>, n: nat)
    requires n < |ops|
    ensures After(b, ops[..n + 1]) == Next(b, After(b, ops[..n]), ops[n])
  {
    assert ops[..n + 1] == ops[..n] + [ops[n]];
    AfterOne(b, ops[..n], ops[n]);
  }

  // ----- the shape of a reachable circuit -----

  predicate Shaped(b: Settings, c: Circuit) {
    && (c.state.Closed? ==> c.failures < b.threshold && c.openedAt.None?)
    && (!c.state.Closed? ==> c.failures >= b.threshold && c.openedAt.Some?)
  }

  lemma {:induction false} ReachableIsShaped(b: Settings, ops: seq<Op>)
    requires b.threshold >= 1
    ensures Shaped(b, After(b, ops))
  {
    if ops != [] { ReachableIsShaped(b, ops[..|ops| - 1]); }
  }

  predicate ClosedBelow(b: Settings, ops: seq<Op>) {
    After(b, ops).state.Closed? ==> After(b, ops).failures < b.threshold
  }

  /** A closed circuit has fewer failures than the threshold, always, exactly for thresholds of at least one. */
  lemma ClosedBelowThresholdIff(b: Settings)
    ensures (forall ops :: ClosedBelow(b, ops)) <==> b.threshold >= 1
  {
    if b.threshold >= 1 {
      forall ops ensures ClosedBelow(b, ops) { ReachableIsShaped(b, ops); }
    } else {
      assert !ClosedBelow(b, []);
    }
  }

  // ----- blocking -----

  /** No success and no reset among the calls from `from` up to `to`. */
  predicate Quiet(ops: seq<Op>, from: nat, to: nat)
    requires to <= |ops|
  {
    forall i :: from <= i < to ==> !ops[i].Success? && !ops[i].Reset?
  }

  predicate QueriesBefore(ops: seq<Op>, from: nat, to: nat, time: int)
    requires to <= |ops|
  {
    forall i :: from <= i < to && ops[i].Query? ==> ops[i].now < time
  }

  /** The clock never runs backwards. */
  predicate Clocked(ops: seq<Op>) {
    forall i, j :: 0 <= i < j < |ops| && Timed(ops[i]) && Timed(ops[j]) ==> ops[i].now <= ops[j].now
  }

  predicate Timed(op: Op) {
    op.Failure? || op.Query?
  }

  /** Call k is the failure that opens the circuit, at time `at`. */
  predicate OpensAt(b: Settings, ops: seq<Op>, k: nat, at: int)
    requires k < |ops|
  {
    ops[k] == Failure(at) && Answer(b, After(b, ops[..k]), ops[k])
  }

  lemma {:induction false} StaysOpen(b: Settings, ops: seq<Op>, k: nat, at: int, m: nat)
    requires k < m <= |ops| && OpensAt(b, ops, k, at) && Quiet(ops, k + 1, m)
    requires at != 0 ==> QueriesBefore(ops, k + 1, m, at + b.cooldown)
    ensures After(b, ops[..m]).state.Open? && After(b, ops[..m]).openedAt == Some(at)
  {
    AfterPrefix(b, ops, m - 1);
    if m > k + 1 {
      StaysOpen(b, ops, k, at, m - 1);
    }
  }

  /**
   * With a clock that never runs backwards, an opening at `at` blocks every query before `at + cooldown`
   * that no success or reset precedes, exactly when `at` is not 0.
   */
  lemma OpeningBlocksIff(b: Settings, ops: seq<Op>, k: nat, at: int, m: nat)
    requires k < m < |ops| && OpensAt(b, ops, k, at) && Quiet(ops, k + 1, m) && Clocked(ops)
    requires ops[m].Query? && ops[m].now < at + b.cooldown
    ensures Answer(b, After(b, ops[..m]), ops[m]) <==> at != 0
  {
    assert forall i :: k + 1 <= i < m && ops[i].Query? ==> Timed(ops[i]) && Timed(ops[m]);
    StaysOpen(b, ops, k, at, m);
  }

  /** The first query at or after `at + cooldown` is let through and leaves the circuit half-open. */
  lemma FirstLateQueryProbes(b: Settings, ops: seq<Op>, k: nat, at: int, m: nat)
    requires k < m < |ops| && OpensAt(b, ops, k, at) && Quiet(ops, k + 1, m) && at != 0
    requires ops[m].Query? && ops[m].now >= at + b.cooldown && QueriesBefore(ops, k + 1, m, at + b.cooldown)
    ensures !Answer(b, After(b, ops[..m]), ops[m]) && After(b, ops[..m + 1]).state.HalfOpen?
  {
    StaysOpen(b, ops, k, at, m);
    AfterPrefix(b, ops, m);
  }

  /** An opening at time 0 never blocks and never half-opens: only a success or a reset ends it. */
  lemma OpeningAtZeroIsInert(b: Settings, ops: seq<Op>, k: nat, m: nat)
    requires k < m < |ops| && OpensAt(b, ops, k, 0) && Quiet(ops, k + 1, m)
    ensures After(b, ops[..m]).state.Open? && !Answer(b, After(b, ops[..m]), ops[m])
  {
    StaysOpen(b, ops, k, 0, m);
  }

  /** Until a success or a reset a half-open circuit stays so: failed probes neither reopen nor block anything. */
  lemma {:induction false} HalfOpenNeverBlocks(b: Settings, ops: seq<Op>, k: nat, m: nat)
    requires k <= m < |ops| && After(b, ops[..k]).state.HalfOpen? && Quiet(ops, k, m)
    ensures After(b, ops[..m]).state.HalfOpen? && !Answer(b, After(b, ops[..m]), ops[m])
  {
    if k < m {
      HalfOpenNeverBlocks(b, ops, k, m - 1);
      AfterPrefix(b, ops, m - 1);
    }
  }

  // ----- counting failures -----

  function Failures(ops: seq<Op>): nat {
    if ops == [] then 0 else Failures(ops[..|ops| - 1]) + if ops[|ops| - 1].Failure? then 1 else 0
  }

  lemma {:induction false} CountedSinceFresh(b: Settings, ops: seq<Op>, j: nat, n: nat)
    requires j <= n <= |ops| && After(b, ops[..j]) == FRESH
    ensures After(b, ops[..n]).failures <= Failures(ops[j..n])
  {
    if j < n {
      CountedSinceFresh(b, ops, j, n - 1);
      AfterPrefix(b, ops, n - 1);
      assert ops[j..n][..n - 1 - j] == ops[j..n - 1];
    }
  }

  lemma {:induction false} HalfOpenEndsInAClose(b: Settings, ops: seq<Op>, k: nat, n: nat) returns (j: nat)
    requires k <= n <= |ops| && After(b, ops[..k]).state.HalfOpen? && !After(b, ops[..n]).state.HalfOpen?
    ensures k <= j < n && (ops[j].Success? || ops[j].Reset?) && After(b, ops[..j + 1]) == FRESH
  {
    AfterPrefix(b, ops, n - 1);
    if After(b, ops[..n - 1]).state.HalfOpen? {
      j := n - 1;
    } else {
      j := HalfOpenEndsInAClose(b, ops, k, n - 1);
    }
  }

  /** Call j closes the circuit, and from there up to call q there are enough failures to open it. */
  ghost predicate ReopenedFrom(b: Settings, ops: seq<Op>, j: nat, q: nat)
    requires j < q <= |ops|
  {
    (ops[j].Success? || ops[j].Reset?) && Failures(ops[j + 1..q]) >= b.threshold
  }

  /** After a half-open state nothing is blocked again before a close and a whole new threshold of failures. */
  lemma BlockingNeedsAFullThreshold(b: Settings, ops: seq<Op>, k: nat, q: nat)
    requires b.threshold >= 1 && k <= q < |ops| && After(b, ops[..k]).state.HalfOpen?
    requires ops[q].Query? && Answer(b, After(b, ops[..q]), ops[q])
    ensures exists j: nat :: k <= j < q && ReopenedFrom(b, ops, j, q)
  {
    var j := HalfOpenEndsInAClose(b, ops, k, q);
    CountedSinceFresh(b, ops, j + 1, q);
    ReachableIsShaped(b, ops[..q]);
    assert ReopenedFrom(b, ops, j, q);
  }

  /** How often recordFailure returned true. */
  function Openings(b: Settings, ops: seq<Op>): nat {
    if ops == [] then 0
    else
      var front, last := ops[..|ops| - 1], ops[|ops| - 1];
      Openings(b, front) + if last.Failure? && Answer(b, After(b, front), last) then 1 else 0
  }

  lemma {:induction false} OpeningsAndPending(b: Settings, ops: seq<Op>)
    requires b.threshold >= 1
    ensures b.threshold * Openings(b, ops) + (if After(b, ops).state.Closed? then After(b, ops).failures else 0) <= Failures(ops)
  {
    if ops != [] {
      var front := ops[..|ops| - 1];
      OpeningsAndPending(b, front);
      ReachableIsShaped(b, front);
      assert b.threshold * (Openings(b, front) + 1) == b.threshold * Openings(b, front) + b.threshold;
    }
  }

  /** Every opening is paid for by a threshold of failures of its own, whatever the threshold is. */
  lemma OpeningsArePaidFor(b: Settings, ops: seq<Op>)
    ensures b.threshold * Openings(b, ops) <= Failures(ops)
  {
    if b.threshold >= 1 {
      OpeningsAndPending(b, ops);
    } else {
      assert b.threshold * Openings(b, ops) <= 0;
    }
  }

  // ----- when a failure opens the circuit -----

  /**
   * Where the count starts, from the calls alone: after the last reset, or the last success that came when the
   * failures counted so far had reached the threshold.
   */
  function CountFrom(threshold: int, ops: seq<Op>): (j: nat)
    ensures j <= |ops|
  {
    if ops == [] then 0
    else
      var front, last := ops[..|ops| - 1], ops[|ops| - 1];
      var j := CountFrom(threshold, front);
      if last.Reset? || (last.Success? && Failures(front[j..]) >= threshold) then |ops| else j
  }

  function Counted(threshold: int, ops: seq<Op>): nat {
    Failures(ops[CountFrom(threshold, ops)..])
  }

  /** The count and the state of a circuit, read off the calls. */
  lemma {:induction false} StateFromCalls(b: Settings, ops: seq<Op>)
    requires b.threshold >= 1
    ensures After(b, ops).failures == Counted(b.threshold, ops)
    ensures After(b, ops).state.Closed? <==> Counted(b.threshold, ops) < b.threshold
  {
    ReachableIsShaped(b, ops);
    if ops != [] {
      var front, last := ops[..|ops| - 1], ops[|ops| - 1];
      var j, k := CountFrom(b.threshold, front), CountFrom(b.threshold, ops);
      StateFromCalls(b, front);
      if k == |ops| {
        assert ops[k..] == [];
      } else {
        assert ops[j..][..|ops[j..]| - 1] == front[j..];
      }
    }
  }

  /** A failure opens the circuit exactly when it is the threshold-th since the count started. */
  lemma OpensExactlyAtThreshold(b: Settings, ops: seq<Op>, now: int)
    requires b.threshold >= 1
    ensures Answer(b, After(b, ops), Failure(now)) <==> Counted(b.threshold, ops) + 1 == b.threshold
  {
    StateFromCalls(b, ops);
  }

  /** The failures since the last success or reset: the ones that are consecutive. */
  function Consecutive(ops: seq<Op>): nat {
    if ops == [] then 0
    else
      var front, last := ops[..|ops| - 1], ops[|ops| - 1];
      if last.Success? || last.Reset? then 0
      else Consecutive(front) + if last.Failure? then 1 else 0
  }

  /** Since the count started, no success came after a failure. */
  ghost predicate NoSuccessBetween(threshold: int, ops: seq<Op>) {
    var counted := ops[CountFrom(threshold, ops)..];
    forall i :: 0 <= i < |counted| && counted[i].Success? ==> Failures(counted[..i]) == 0
  }

  lemma {:induction false} ConsecutiveInSuffix(s: seq<Op>)
    requires forall i :: 0 <= i < |s| ==> !s[i].Reset?
    ensures Consecutive(s) <= Failures(s)
    ensures Consecutive(s) == Failures(s) <==> forall i :: 0 <= i < |s| && s[i].Success? ==> Failures(s[..i]) == 0
  {
    if s != [] {
      var n := |s| - 1;
      var front := s[..n];
      ConsecutiveInSuffix(front);
      assert forall i :: 0 <= i < n ==> s[..i] == front[..i];
    }
  }

  lemma {:induction false} CountedHasNoReset(threshold: int, ops: seq<Op>)
    ensures var j := CountFrom(threshold, ops);
            && (forall i :: j <= i < |ops| ==> !ops[i].Reset?)
            && Consecutive(ops) == Consecutive(ops[j..])
  {
    if ops != [] {
      var front := ops[..|ops| - 1];
      var j, k := CountFrom(threshold, front), CountFrom(threshold, ops);
      CountedHasNoReset(threshold, front);
      if k == |ops| {
        assert ops[k..] == [];
      } else {
        assert ops[j..][..|ops[j..]| - 1] == front[j..];
      }
    }
  }

  /**
   * The count is never less than the consecutive failures, and equals them exactly when no success came
   * between two counted failures. So the circuit opens no later than a count of consecutive failures would,
   * and just when it would if and only if that holds.
   */
  lemma CountsConsecutiveIff(threshold: int, ops: seq<Op>)
    ensures Consecutive(ops) <= Counted(threshold, ops)
    ensures Consecutive(ops) == Counted(threshold, ops) <==> NoSuccessBetween(threshold, ops)
  {
    CountedHasNoReset(threshold, ops);
    ConsecutiveInSuffix(ops[CountFrom(threshold, ops)..]);
  }

  /** An opening comes after a full threshold of consecutive failures exactly when no success came between them. */
  lemma OpeningIsConsecutiveIff(b: Settings, ops: seq<Op>, now: int)
    requires b.threshold >= 1 && Answer(b, After(b, ops), Failure(now))
    ensures Consecutive(ops + [Failure(now)]) >= b.threshold <==> NoSuccessBetween(b.threshold, ops)
  {
    OpensExactlyAtThreshold(b, ops, now);
    CountsConsecutiveIff(b.threshold, ops);
    assert (ops + [Failure(now)])[..|ops|] == ops;
  }

  // ----- failures need not be consecutive -----

  /** A success on a closed circuit is forgotten: leaving it out of the calls changes nothing after it. */
  lemma {:induction false} SuccessWhileClosedIsForgotten(b: Settings, before: seq<Op>, after: seq<Op>)
    requires After(b, before).state.Closed?
    ensures After(b, before + [Success] + after) == After(b, before + after)
  {
    if after == [] {
      AfterOne(b, before, Success);
      assert before + [Success] + after == before + [Success] && before + after == before;
    } else {
      var front, last := after[..|after| - 1], after[|after| - 1];
      SuccessWhileClosedIsForgotten(b, before, front);
      assert before + [Success] + after == (before + [Success] + front) + [last];
      assert before + after == (before + front) + [last];
      AfterOne(b, before + [Success] + front, last);
      AfterOne(b, before + front, last);
    }
  }

  /** n failures, each followed by a success. */
  function Alternating(n: nat, now: int): seq<Op> {
    if n == 0 then [] else Alternating(n - 1, now) + [Failure(now)] + [Success]
  }

  lemma {:induction false} AlternatingCounts(b: Settings, n: nat, now: int)
    requires n < b.threshold
    ensures After(b, Alternating(n, now)).state.Closed? && After(b, Alternating(n, now)).failures == n
  {
    if n > 0 {
      AlternatingCounts(b, n - 1, now);
      AfterOne(b, Alternating(n - 1, now), Failure(now));
      AfterOne(b, Alternating(n - 1, now) + [Failure(now)], Success);
    }
  }

  /** The failures that open a circuit need not be consecutive: a success between any two of them is no help. */
  lemma FailuresNeedNotBeConsecutive(b: Settings, now: int)
    requires b.threshold >= 1
    ensures Answer(b, After(b, Alternating(b.threshold - 1, now)), Failure(now))
  {
    AlternatingCounts(b, b.threshold - 1, now);
  }
}
