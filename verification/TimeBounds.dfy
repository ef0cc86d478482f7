/** Expiry of unsigned intents. */
module TimeBounds {
  // Expiry of unsigned transaction intents: the stored deadline, the signed envelope's own time bounds
  // (src/lib/time-bounds.ts), and the list filter that must agree with a direct read (src/services/settlement-
  // history.ts, src/services/settlement-status.ts). Instants are whole milliseconds.

  import opened Basics

  datatype Bounds = Bounds(minTime: int, maxTime: int)
  datatype Verdict = Accepted | XdrMismatch | IntentExpired

  const CLOCK_SKEW_TOLERANCE_SECONDS := 30
  const MIN_INTENT_VALIDITY_SECONDS := 30
  const MAX_INTENT_VALIDITY_SECONDS := 300

  /** `Math.floor(ms / 1000)`: with a positive divisor Dafny's division floors too. */
  function NowSeconds(now: int): int {
    now / 1000
  }

  /** The validity actually given for a requested one. */
  function Validity(requested: int): (seconds: int)
    ensures 30 <= seconds <= 300
    ensures seconds == requested || (seconds == 30 > requested) || (seconds == 300 < requested)
  {
    var atLeast := if requested > MIN_INTENT_VALIDITY_SECONDS then requested else MIN_INTENT_VALIDITY_SECONDS;
    if atLeast < MAX_INTENT_VALIDITY_SECONDS then atLeast else MAX_INTENT_VALIDITY_SECONDS
  }

  function IntentExpiry(requested: int, now: int): int {
    now + Validity(requested) * 1000
  }

  predicate IsIntentExpired(expiresAt: Option<int>, now: int) {
    expiresAt.Some? && NowSeconds(now) > NowSeconds(expiresAt.value) + CLOCK_SKEW_TOLERANCE_SECONDS
  }

  function CheckBounds(bounds: Option<Bounds>, expiresAt: Option<int>, now: int): Verdict {
    if bounds.None? || bounds.value.maxTime <= 0 then XdrMismatch
    else if expiresAt.Some? && bounds.value.maxTime > NowSeconds(expiresAt.value) + CLOCK_SKEW_TOLERANCE_SECONDS then XdrMismatch
    else if bounds.value.maxTime + CLOCK_SKEW_TOLERANCE_SECONDS < NowSeconds(now) then IntentExpired
    else if bounds.value.minTime > NowSeconds(now) + CLOCK_SKEW_TOLERANCE_SECONDS then XdrMismatch
    else Accepted
  }

  // ----- when an envelope is accepted -----

  /**
   * To the millisecond: an envelope that ends, and ends no more than 30 seconds after its intent, is good from 30
   * seconds before its `minTime` to 31 seconds after its `maxTime`; after that it has expired, before that it is a
   * mismatch, and so is any other envelope at any time.
   */
  lemma EnvelopeWindow(bounds: Option<Bounds>, expiresAt: Option<int>, now: int)
    ensures var verdict := CheckBounds(bounds, expiresAt, now);
            if bounds.None? || bounds.value.maxTime <= 0
               || (expiresAt.Some? && expiresAt.value < (bounds.value.maxTime - 30) * 1000)
            then verdict == XdrMismatch
            else && (verdict == IntentExpired <==> now >= (bounds.value.maxTime + 31) * 1000)
                 && (verdict == Accepted <==> (bounds.value.minTime - 30) * 1000 <= now < (bounds.value.maxTime + 31) * 1000)
  {
  }

  // ----- how late an envelope can be accepted -----

  lemma SecondsOfSum(now: int, seconds: int)
    ensures NowSeconds(now + seconds * 1000) == NowSeconds(now) + seconds
  {
  }

  /** The first instant at which an intent counts as expired. */
  function Lapse(requested: int, created: int): int {
    (NowSeconds(created) + Validity(requested) + CLOCK_SKEW_TOLERANCE_SECONDS + 1) * 1000
  }

  /** To the millisecond: an intent is live before its lapse and expired from it on. */
  lemma ExpiresAtItsLapse(requested: int, created: int, now: int)
    ensures IsIntentExpired(Some(IntentExpiry(requested, created)), now) <==> now >= Lapse(requested, created)
    ensures NowSeconds(Lapse(requested, created) - 1) - NowSeconds(created) == Validity(requested) + CLOCK_SKEW_TOLERANCE_SECONDS
  {
    SecondsOfSum(created, Validity(requested));
  }

  /** Whatever its own bounds say, an envelope that passes both checks is at most 330 seconds old. */
  lemma BothChecksBoundAge(requested: int, created: int, bounds: Option<Bounds>, now: int)
    requires !IsIntentExpired(Some(IntentExpiry(requested, created)), now)
    requires CheckBounds(bounds, Some(IntentExpiry(requested, created)), now).Accepted?
    ensures NowSeconds(now) - NowSeconds(created) <= Validity(requested) + 30 <= 330
    ensures now - created < 331_000
  {
    ExpiresAtItsLapse(requested, created, now);
  }

  /** The check of the envelope alone lets it be at most 360 seconds old. */
  lemma EnvelopeCheckBoundsAge(requested: int, created: int, bounds: Option<Bounds>, now: int)
    requires CheckBounds(bounds, Some(IntentExpiry(requested, created)), now).Accepted?
    ensures NowSeconds(now) - NowSeconds(created) <= Validity(requested) + 60 <= 360
  {
    SecondsOfSum(created, Validity(requested));
  }

  /** Both limits are reached, for every requested validity, by envelopes valid until the last allowed second. */
  lemma AgeLimitsAreReached(requested: int, created: int)
    requires created >= 0
    ensures var expiresAt := IntentExpiry(requested, created);
            var bounds := Bounds(0, NowSeconds(expiresAt) + 30);
            var late, later := Lapse(requested, created) - 1, Lapse(requested, created) + 29_999;
            && !IsIntentExpired(Some(expiresAt), late) && CheckBounds(Some(bounds), Some(expiresAt), late).Accepted?
            && NowSeconds(late) - NowSeconds(created) == Validity(requested) + 30
            && CheckBounds(Some(bounds), Some(expiresAt), later).Accepted?
            && NowSeconds(later) - NowSeconds(created) == Validity(requested) + 60
  {
    SecondsOfSum(created, Validity(requested));
    ExpiresAtItsLapse(requested, created, Lapse(requested, created) - 1);
  }

  // ----- when the two checks agree -----

  ghost predicate AgreeAt(bounds: Bounds, expiresAt: int, now: int) {
    CheckBounds(Some(bounds), Some(expiresAt), now).Accepted? <==> !IsIntentExpired(Some(expiresAt), now)
  }

  /**
   * For an envelope with no lower bound, the envelope check and the intent check give the same answer at every
   * instant, in spite of the flooring, exactly when its `maxTime` is the stored deadline in whole seconds.
   */
  lemma ChecksAgreeIff(maxTime: int, expiresAt: int)
    requires NowSeconds(expiresAt) > 0
    ensures (forall now: nat :: AgreeAt(Bounds(0, maxTime), expiresAt, now)) <==> maxTime == NowSeconds(expiresAt)
  {
    var bounds, seconds := Bounds(0, maxTime), NowSeconds(expiresAt);
    if maxTime < seconds {
      // the last moment of the intent's tolerance is past the envelope's
      var late: nat := (seconds + 30) * 1000;
      assert NowSeconds(late) == seconds + 30;
      assert !AgreeAt(bounds, expiresAt, late);
    } else if maxTime > seconds {
      var late: nat := (seconds + 31) * 1000;
      assert NowSeconds(late) == seconds + 31;
      var early: nat := expiresAt;
      assert !AgreeAt(bounds, expiresAt, late) || !AgreeAt(bounds, expiresAt, early);
    }
  }

  /**
   * The envelope the service builds, with `maxTime` counted from its own reading of the clock, is refused as
   * outliving its intent exactly when building took more than the tolerance; built in time, it is accepted
   * for at least as long as the intent is live.
   */
  lemma BuiltEnvelopeFitsIff(requested: int, created: int, built: int, now: int)
    requires 0 <= created <= built <= now
    ensures var expiresAt := Some(IntentExpiry(requested, created));
            var bounds := Some(Bounds(0, NowSeconds(built) + Validity(requested)));
            && (CheckBounds(bounds, expiresAt, now).XdrMismatch? <==> NowSeconds(built) > NowSeconds(created) + 30)
            && (NowSeconds(built) <= NowSeconds(created) + 30 && !IsIntentExpired(expiresAt, now) ==>
                  CheckBounds(bounds, expiresAt, now).Accepted?)
  {
    SecondsOfSum(created, Validity(requested));
  }

  // ----- a list and a direct read -----

  datatype PublicStatus = Confirmed | Failed | Expired | Submitted | AwaitingSignature

  function ToPublicStatus(column: string, expiresAt: Option<int>, now: int): PublicStatus {
    if column == "confirmed" then Confirmed
    else if column == "failed" then Failed
    else if column == "expired" then Expired
    else if column == "submitted" then (if IsIntentExpired(expiresAt, now) then Expired else Submitted)
    else if IsIntentExpired(expiresAt, now) then Expired
    else AwaitingSignature
  }

  function ExpiryCutoff(now: int): int {
    (NowSeconds(now) - CLOCK_SKEW_TOLERANCE_SECONDS) * 1000
  }

  const TERMINAL_COLUMN_STATUSES := {"confirmed", "failed", "expired"}

  /** The condition on the stored columns; a comparison with a null column is not satisfied. */
  predicate Selects(status: PublicStatus, column: string, expiresAt: Option<int>, now: int) {
    var notLapsed := expiresAt.None? || expiresAt.value >= ExpiryCutoff(now);
    match status
    case Confirmed => column == "confirmed"
    case Failed => column == "failed"
    case Expired =>
      column == "expired" || (column !in TERMINAL_COLUMN_STATUSES && expiresAt.Some? && expiresAt.value < ExpiryCutoff(now))
    case Submitted => column == "submitted" && notLapsed
    case AwaitingSignature => column !in TERMINAL_COLUMN_STATUSES + {"submitted"} && notLapsed
  }

  lemma CutoffIsExpiry(expiresAt: int, now: int)
    ensures expiresAt < ExpiryCutoff(now) <==> IsIntentExpired(Some(expiresAt), now)
  {
  }

  /**
   * The filter is the inverse of the status a direct read reports: at every instant each row, whatever its
   * column holds, is listed under the one status it reads as and under no other.
   */
  lemma FilterIsInverse(status: PublicStatus, column: string, expiresAt: Option<int>, now: int)
    ensures Selects(status, column, expiresAt, now) <==> ToPublicStatus(column, expiresAt, now) == status
  {
    if expiresAt.Some? { CutoffIsExpiry(expiresAt.value, now); }
  }
}
