/** Replays and request bodies. */
module Replays {
  // What payload binding means for bodies: the reservation protocol compares hashes, and the hashes are those of
  // canonical request bodies (src/plugins/idempotency.ts).

  import opened Reservations
  import opened Idempotency
  import opened CanonicalJson
  import JsonText
  import Base64

  /** The log names requests under the hash they came with. */
  ghost predicate LogFaithful(s: State) {
    forall p :: 0 <= p < |s.log| ==> EventFaithful(s, s.log[p])
  }

  predicate EventFaithful(s: State, e: Event) {
    e.request in s.requests && s.requests[e.request].hash == e.hash
  }

  /** Requests stay, under the hash they came with. */
  ghost predicate RequestsStay(s: State, t: State) {
    forall r :: r in s.requests ==> r in t.requests && t.requests[r].hash == s.requests[r].hash
  }

  lemma StepAddsToLog(c: Config, s: State, step: Step)
    requires Enabled(s, step)
    ensures RequestsStay(s, Apply(c, s, step))
    ensures var t := Apply(c, s, step);
            t.log == s.log || (|t.log| == |s.log| + 1 && t.log[..|s.log|] == s.log && EventFaithful(t, t.log[|s.log|]))
  {
    hide Claimable, IsAbandoned, InsertedRow, ReclaimedRow, RecordedRow, ReplayOf, Unswept, Find;
  }

  lemma {:induction false} LogFaithfulAt(c: Config, states: seq<State>, steps: seq<Step>, i: nat)
    requires Run(c, states, steps) && i < |states|
    ensures LogFaithful(states[i])
  {
    if i > 0 {
      LogFaithfulAt(c, states, steps, i - 1);
      assert StepAt(c, states, steps, i - 1);
      StepAddsToLog(c, states[i - 1], steps[i - 1]);
      hide Run, StepAt, Apply, Enabled;
      var s, t := states[i - 1], states[i];
      forall p | 0 <= p < |t.log| ensures EventFaithful(t, t.log[p]) {
        if p < |s.log| { assert t.log[p] == s.log[p] && EventFaithful(s, s.log[p]); }
      }
    }
  }

  /** Every request came with the hash of its scope and body. */
  ghost predicate HashesBodies(s: State, digest: seq<Base64.Byte> -> string, bodies: nat -> Json) {
    forall r :: r in s.requests ==>
      WellFormed(bodies(r)) && s.requests[r].hash == JsonText.HashRequestBody(digest, s.requests[r].key.scope, bodies(r))
  }

  /** Success q recorded this response, for a request whose scope and body mean what request r's do. */
  ghost predicate RecordedForSameBody(s: State, bodies: nat -> Json, r: nat, response: Response, q: nat)
    requires r in s.requests
  {
    && q < |s.log| && s.log[q].Success? && s.log[q].response == response
    && s.log[q].request in s.requests && s.requests[s.log[q].request].key.scope == s.requests[r].key.scope
    && Meaning(bodies(s.log[q].request), false) == Meaning(bodies(r), false)
    && (ProtoFree(bodies(s.log[q].request)) && ProtoFree(bodies(r)) ==>
          Meaning(bodies(s.log[q].request), true) == Meaning(bodies(r), true))
  }

  /**
   * With a collision-free digest, whoever is answered by a replay gets a response that was produced for the same
   * operation and for a body equal to its own up to the order of keys.
   */
  lemma ReplaysAnswerEqualBodies(c: Config, states: seq<State>, steps: seq<Step>, i: nat,
                                 digest: seq<Base64.Byte> -> string, bodies: nat -> Json, p: nat)
    requires Run(c, states, steps) && SparingRun(states, steps) && i < |states|
    requires forall a, b :: digest(a) == digest(b) ==> a == b
    requires HashesBodies(states[i], digest, bodies)
    requires p < |states[i].log| && states[i].log[p].Replay?
    ensures var s := states[i];
            s.log[p].request in s.requests && exists q: nat :: RecordedForSameBody(s, bodies, s.log[p].request, s.log[p].response, q)
  {
    PayloadBinding(c, states, steps, i);
    LogFaithfulAt(c, states, steps, i);
    hide Run, SparingRun, HoldersBound, Meaning, ProtoFree, WellFormed, JsonText.HashRequestBody;
    var s := states[i];
    assert EventFaithful(s, s.log[p]);
    assert Recorded(s.log, s.log[p].rowId, s.log[p].hash, s.log[p].response);
    var q: nat :| q < |s.log| && s.log[q].Success? && s.log[q].rowId == s.log[p].rowId && s.log[q].hash == s.log[p].hash
                  && s.log[q].response == s.log[p].response;
    assert EventFaithful(s, s.log[q]);
    var r, o := s.log[p].request, s.log[q].request;
    JsonText.HashesAgreeIff(digest, s.requests[o].key.scope, bodies(o), s.requests[r].key.scope, bodies(r));
    ProtoFreeIff(bodies(o));
    ProtoFreeIff(bodies(r));
    assert RecordedForSameBody(s, bodies, r, s.log[p].response, q);
  }
}
