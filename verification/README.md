# A verified model of the settlement API's protocols and algorithms

The API moves money between members of a group over Stellar. Around the plumbing it has a handful of small
protocols and algorithms whose comments promise something about every interleaving or every input. This project
models them in Dafny, statement by statement where the original changes state, and proves what holds of all runs,
all graphs, all strings, all call sequences. Where a promise does not hold as stated, the model keeps the code as
it is, a lemma gives a concrete input, and another gives the exact condition under which the promise holds.

`dafny verify dfyconfig.toml` checks everything.

## What is modelled

- **Idempotent requests.** `Reservations` is the reservation table with the statements of `reserve`, `record` and the
  cleanup job; `Idempotency` is the step system of any number of requests (stale read, unique insert or guarded
  re-claim, handler, record, lost record, sweep) under one clock. `Replays` joins it to the hashing of bodies.
- **Hashing of bodies.** `CanonicalJson` is `canonicalize` on values whose objects do have a key order, with
  JavaScript's property order and its treatment of `__proto__`; `JsonText` is `JSON.stringify`, and the hash with the
  digest as a collision-free parameter.
- **One settlement.** `Settlements` is `execute` and `confirm` racing on a row, its history and its audit trail, with
  every other writer as an environment that may do anything except write a win's history or audit row; `confirm`'s
  ledger reconciliation goes through the settlement state machine. `Executions` puts the reservations around the
  handlers, which may go on after a reply was sent for them.
- **One anchor session.** `AnchorStatus` is the transition map, `AnchorSessions` the webhook, poll and user writers
  that race through `applyAnchorSessionTransition`.
- **Keyset pagination.** `Listing`, `Pagination` and `Ledger`: cursors with their base64url and UTF-8 text, the resume
  filter, the page cut, walks over a table that is written to between pages, and the ledger and history merges.
- **Leases and the circuit breaker.** `WorkerLock` with separate client and database clocks; `AnchorCircuit` as a
  class and as traces of calls.
- **Parsers and printers.** `Money` (with `Numerals` and `Text`), `Memo` (with `Base64` and `Utf8`), `AnchorSchemas`.
- **Logging.** `Sanitizer` walks an arbitrary heap graph with a mutable guard set; `SensitiveKeys` decides which keys
  it censors.
- **Deadlines.** `TimeBounds`: the two expiry checks of an envelope, and the list filter that must agree with a read.

Methods that run between other writers' statements take those writers' effect as a function parameter (`others`), so
each method is proved for every interference. The step systems then give the whole-run results.

## Where the code and what is said of it differ

- Circuit breaker: the failures that open it need not be consecutive. It opens at the threshold-th failure since the
  last reset or closing success (`AnchorCircuit.OpensExactlyAtThreshold`), and those failures are consecutive exactly
  when no success came between them (`AnchorCircuit.OpeningIsConsecutiveIff`). The cooldown half-opens it rather than
  closing it, failed probes do not reopen it, and an opening at time 0 never blocks (`AnchorCircuit.OpeningBlocksIff`).
- Settlement history: the duplicate check compares with the newest history row, so a won update adds no row exactly
  when another writer had made the settlement submittable again without recording it (`Settlements.RowsMatchWinsIff`).
  `writeStatus` in src/worker/reconciliation.ts:121-200 is such a writer: it sets `failed` and writes no history.
  `execute` leaves `failureCategory` as it was; only `confirm` clears it.
- Ledger reconciliation in `confirm`: a successful transaction confirms a settlement in verification or review, but not
  one that is still `submitted`, since the transition map has no such step; the error is swallowed and the stored
  state returned (`Settlements.ReconciliationConfirmsIff`).
- The audit record of a settlement transition names the status that was read as `from`; under interference the status
  replaced can be another one that the map allows (`Settlements.ReconciliationWrites`).
- A webhook that repeats the status it read stores its extra data without a status guard, so one that was overtaken
  writes them on a session that has moved on (`AnchorSessions.ExtraIsLastStored`).
- Reservations: exclusivity needs a retention time of at least the in-progress timeout
  (`Idempotency.ExclusiveIffTtlCoversTimeout`). Replays stay bound to the request hash after a sweep exactly when it
  spares held rows (`Idempotency.SweepKeepsBindingIff`), because a response is recorded by key. The sweep itself,
  `cleanupExpiredIdempotencyKeys`, is called from nowhere under src; the model has it run at any time.
- Anchor statuses: `constructor` and `__proto__` are found in the legacy map by inheritance, and resolve to something
  that is no status (`AnchorSchemas.ResolvesAsUnderstood`).
- Log keys: spelling does not matter to what is censored, except for `proxy-authorization`, `set-cookie` and
  `x-api-key`, which are recognised only with their dashes (`SensitiveKeys.SpellingsAgreeIff`).
- Merged pages are complete exactly when positions are distinct across the tables (`Ledger.MergedWalksCompleteIff`).
  Ids are generated so that two tables would have to collide on one, so this is a condition and not a practical loss.
- Memos: a reference is cut off at 28 bytes when it is written; a payment carrying it is attributed exactly when the
  code fits (`Memo.WrittenMemoIsAttributedIff`).

Two facts are about bare functions, outside what reaches them:

- `toStroops` of src/lib/money.ts reads a minus sign as belonging to the whole part, so it reads back what
  `fromStroops` printed exactly for numbers that are not negative or are whole (`Money.ReadsBackIff`). Its stated
  precondition is a validated decimal, which has no sign, and signed balances are read by the separate `toStroops` of
  src/services/money.ts:53-71, which takes the sign off first; no caller is affected.
- `canonicalize` drops a property named `__proto__` (`CanonicalJson.CanonicalKeepsMeaningIff`). The only caller passes
  a body that Fastify parsed (src/plugins/idempotency.ts:364), and its default parser answers 400 to a body with such
  a property; src/app.ts:196 does not change that default. For bodies that arrive, hashes agree exactly up to key
  order (`JsonText.ArrivingHashesAgreeIff`).

Leases need no exception: the worker awaits its release before it sleeps and tries again (src/worker/index.ts:1819 and
1835-1850), so it is serial in the sense of `WorkerLock.AwaitedRunsAreSerial`, though one identifier owns all its
leases, and `WorkerLock.ReleaseSparesSuccessors` applies. `WorkerLock.OverlappingLeasesCollide` shows why being serial
is needed, by a run that no caller makes.

## Model

| member | source | states |
|---|---|---|
| `Reservations.ReservationTable.Create` | src/plugins/idempotency.ts:253-265 | the insert succeeds exactly when the key is free and otherwise changes nothing |
| `Reservations.ReservationTable.UpdateManyClaimable` | src/plugins/idempotency.ts:211-233 | the re-claim updates one row exactly when it is failed or abandoned and has this hash; otherwise nothing |
| `Reservations.ReservationTable.Record` | src/plugins/idempotency.ts:287-317 | a response is written on whatever row has the key, and a missing row is left missing: after a success the row answers every request for the key by its body and is kept for the retention time; after anything else it can be claimed at any time and keeps its expiry |
| `Reservations.ReservationTable.DeleteExpired` | src/services/idempotency.ts:461-466 | a key is freed exactly when its row expired before the cutoff, every other row and the id counter are untouched, and the number removed is returned |
| `Reservations.SweepFreesExpired` | src/services/idempotency.ts:461-466 | after a sweep a request for a swept key can take only a new row, and one for a kept key finds what it would have found |
| `Reservations.ReservationTable.Reserve` | src/plugins/idempotency.ts:183-284 | under any interference between its statements: the outcome exactly, by the table each statement read. A row that settles the request is the answer; otherwise the second table decides the grant, which leaves the row in progress for this hash; a request that loses is answered from the third table, and has written nothing |
| `Reservations.RowsTellOneOutcome` | src/plugins/idempotency.ts:197-248 | every row tells a request exactly one of conflict, replay of its own response, and wait |
| `Reservations.ClaimableIffUnsettled` | src/plugins/idempotency.ts:157-226 | the checks on the row read and the WHERE clause of the re-claim agree: a row matches the clause exactly when it does not settle the request |
| `Reservations.FailureIsClaimable` | src/plugins/idempotency.ts:299-315 | a row with a recorded failure can be claimed at every instant by exactly its own hash, shows no response and keeps its expiry |
| `Reservations.SuccessSettles` | src/plugins/idempotency.ts:303-314 | a row with a recorded success settles every request: its own hash is sent that status code and body, any other is refused |
| `Idempotency.StepsAreReserve` | src/plugins/idempotency.ts:183-284 | the steps of a request in the step system decide as the statements of `reserve` do, case by case |
| `Idempotency.PayloadBinding` | src/plugins/idempotency.ts:198-248 | in every run whose sweeps spare held rows, each holder's row has the holder's hash and every replay returns a response recorded on that row by a request with the same hash, late holders included |
| `Idempotency.SweepKeepsBindingIff` | src/plugins/idempotency.ts:287-317 | from any state of such a run, a sweep leaves every further sparing course bound exactly when it spares held rows itself |
| `Idempotency.UnsparingSweepMisanswers` | src/plugins/idempotency.ts:306-317 | from any reachable state, a sweep that takes a held row can be followed, with no other sweep, by a replay to a request with another hash |
| `Idempotency.ExclusiveHolder` | src/plugins/idempotency.ts:183-284 | in every run without overdue holders, at most one request holds a key and its row is in progress with its hash |
| `Idempotency.ExclusiveIffTtlCoversTimeout` | src/plugins/idempotency.ts:162-166 | runs without overdue holders are exclusive exactly when the retention time is at least the in-progress timeout |
| `Idempotency.HeldIsNotClaimable` | src/plugins/idempotency.ts:211-226 | no statement, however stale the read behind it, can re-claim the row of a holder in time |
| `Idempotency.TimelySweepsSpareHolders` | src/services/idempotency.ts:461-466 | with a sufficient retention time no sweep takes the row of a holder in time |
| `Idempotency.OneResponsePerRow` | src/plugins/idempotency.ts:169-176 | at most one success is recorded per row lifetime, and every replay in it returns that response |
| `Idempotency.HashNeverChanges` | src/plugins/idempotency.ts:227-232 | in every run whatever, a row keeps its key and request hash for as long as it lives |
| `Idempotency.CompletedUntilSwept` | src/plugins/idempotency.ts:306-317 | a completed row stays exactly as it is until it is swept |
| `Idempotency.SuccessIsReplayed` | src/plugins/idempotency.ts:169-204 | in every run without overdue holders, whoever reads the key within the retention time after a recorded success is, when it decides, sent that status code and body, or refused for another body |
| `Idempotency.FailureIsRetried` | src/plugins/idempotency.ts:299-315 | in every run that spares held rows, from the state that a failed response leaves, a retry with the same key and body holds the key in four steps in which no time passes |
| `Idempotency.ShortTtlAdmitsTwoHolders` | src/services/idempotency.ts:461-466 | a run with two holders of one key, none overdue, for every retention time below the timeout |
| `Idempotency.SweptHolderMisanswers` | src/plugins/idempotency.ts:306-317 | for every configuration, a run in which a late holder's response is replayed to a request with another hash |
| `Idempotency.OverdueHolderIsJoined` | src/plugins/idempotency.ts:209-265 | in every run, from every state with an overdue holder, either two requests have held one key at once already, or a retry joins the holder in four steps, whether its row is there or swept |
| `Replays.ReplaysAnswerEqualBodies` | src/plugins/idempotency.ts:364-375 | whoever is answered by a replay gets a response made for the same operation and for a body equal to its own up to key order |
| `CanonicalJson.CanonicalFormsAgreeIff` | src/plugins/idempotency.ts:113-125 | two bodies have one canonical form exactly when they are equal up to the order of object keys at every depth, arrays in order, `__proto__` aside |
| `CanonicalJson.CanonicalizeIsIdempotent` | src/plugins/idempotency.ts:113-125 | canonicalizing a canonical form changes nothing |
| `CanonicalJson.CanonicalMeans` | src/plugins/idempotency.ts:113-125 | canonicalizing keeps every property and value at every depth, `__proto__` aside |
| `CanonicalJson.CanonicalKeepsMeaningIff` | src/plugins/idempotency.ts:118-121 | the canonical form means what the body does exactly when no object in it has its own `__proto__` |
| `CanonicalJson.ProtoIsInvisible` | src/plugins/idempotency.ts:118-121 | of the bare function: a value with a `__proto__` property and the value without it have one canonical form |
| `CanonicalJson.ArrivingFormsAgreeIff` | src/plugins/idempotency.ts:113-125 | bodies without `__proto__` have one canonical form exactly when they are equal up to key order |
| `CanonicalJson.CanonicalIsWellFormed` | src/plugins/idempotency.ts:113-125 | a canonical form has no key twice and can be printed |
| `CanonicalJson.CanonicalIsInOrder` | src/plugins/idempotency.ts:113-125 | the objects of a canonical form, at every depth, list array indices first in numeric order and then the other names by UTF-16 code units |
| `CanonicalJson.SortsByCodeUnits` | src/plugins/idempotency.ts:117 | the order of the names is that of their UTF-16 code units, surrogate pairs included |
| `CanonicalJson.IndicesAreNumerals` | src/plugins/idempotency.ts:118-121 | the names that JavaScript lists first are the numerals below 2^32 - 1 |
| `JsonText.TextDeterminesValue` | src/plugins/idempotency.ts:109 | a printed value can be told apart from every other, and where it ends: no value's text runs into what follows it |
| `JsonText.EscapedTextsAreApart` | src/plugins/idempotency.ts:109 | a quoted string is determined by its escapes up to the closing quote |
| `JsonText.StringsAreRead` | src/plugins/idempotency.ts:109 | a string as it is printed, read back by the grammar of JSON (section 7 of RFC 8259), is the string |
| `JsonText.EscapesAreRead` | src/plugins/idempotency.ts:109 | each character is printed as itself unless it must be escaped, by a letter where there is one and by its code otherwise, and read back |
| `JsonText.SerializeIsInjective` | src/plugins/idempotency.ts:109 | values with one text are one value |
| `JsonText.PreimagesAgreeIff` | src/plugins/idempotency.ts:108-111 | requests are hashed from the same text exactly when their scopes are equal and their bodies mean the same |
| `JsonText.HashesAgreeIff` | src/plugins/idempotency.ts:108-111 | the same for the hashes, for every collision-free digest |
| `JsonText.ArrivingHashesAgreeIff` | src/plugins/idempotency.ts:108-111 | requests that can arrive hash alike exactly when their scopes are equal and their bodies are equal up to key order |
| `Settlements.SettlementStore.RecordStatusTransition` | src/services/status-history.ts:78-107 | a history row is added exactly when the newest one has another status |
| `Settlements.SettlementStore.UpdateManySubmittable` | src/routes/settlements.ts:611-625 | the conditional update wins exactly on a pending or failed row |
| `Settlements.SettlementStore.RunExecute` | src/routes/settlements.ts:735-806 | under any interference: 202 exactly when the row read was not yet accepted and the row updated was submittable, and then the new row, history and audit are as stated; otherwise this request wrote nothing |
| `Settlements.SettlementStore.ApplySettlementTransition` | src/services/settlement-machine.ts:83-195 | under any interference between its read and its update: the guarded transition with its extra columns, history and audit rows, or nothing |
| `Settlements.SettlementStore.RunConfirm` | src/routes/settlements.ts:522-650 | under any interference: an accepted settlement is only reconciled with the ledger's answer; any other is submitted exactly when submittable at the update, with the row, history and audit as stated and the failure category cleared |
| `Settlements.ReconciliationConfirmsIff` | src/routes/settlements.ts:537-589 | of the settlements `confirm` reconciles, a successful ledger answer confirms exactly those in verification or review |
| `Settlements.ReconciliationFailsIff` | src/routes/settlements.ts:568-580 | of the settlements `confirm` reconciles, an unsuccessful ledger answer fails exactly those submitted, in verification or in review |
| `Settlements.ReconciliationWrites` | src/services/settlement-machine.ts:115-195 | whatever interferes, the columns, the audit record and the history row that a reconciliation writes, or that it writes nothing; the audit record names the status read, not the one replaced |
| `Settlements.SettlementMapInWords` | src/services/settlement-machine.ts:31-46 | the transition map by what a transition leads to |
| `Settlements.ConfirmationsAreVerified` | src/services/settlement-machine.ts:31-46 | every path of the map from `pending` to `confirmed` comes through `submitted` and then `verifying`, and ends there |
| `Settlements.ReconciliationIsSafe` | src/services/settlement-machine.ts:115-146 | whatever interferes, reconciling ends at the new status or one that was there, never takes a confirmation back, and writes none of a win's rows |
| `Settlements.RowsMatchWinsIff` | src/services/status-history.ts:84-107 | `submitted` rows never exceed won updates, and equal them exactly when no winning commit came upon a row with `submitted` newest in its history |
| `Settlements.RowsMatchWins` | src/routes/settlements.ts:611-642 | one history row per won update whenever other writers keep the history truthful |
| `Settlements.SilentResetLosesARow` | src/worker/reconciliation.ts:121-180 | a run with two wins and one row, after a `failed` written without history |
| `Settlements.AuditListsWins` | src/routes/settlements.ts:626-642 | in every interleaving the audit records of won updates are the wins, in commit order |
| `Settlements.RepliesTellWinsAt` | src/routes/settlements.ts:757-807 | in every interleaving a fresh 202 is sent exactly for an `execute` win, each win is answered, and no request wins twice |
| `Settlements.WinsNeedAReset` | src/routes/settlements.ts:735-806 | between any two wins another writer put the row back to `pending` or `failed` |
| `Executions.TwoExecutionsNeedAReset` | src/routes/settlements.ts:654-808 | with reservations around the handlers, however many of them run, under one key or several, late, swept, or answered 408 while running: between two that win another writer reset the settlement |
| `Executions.OneAcceptance` | src/routes/settlements.ts:757-807 | without such a reset, every 202 ever sent or recorded for a settlement is on account of one request |
| `Executions.ReplayedAcceptanceIsAWin` | src/plugins/idempotency.ts:382-404 | a replayed 202 goes back to a request with the same hash that won the conditional update |
| `Executions.RetryIsReplayed` | src/plugins/idempotency.ts:382-404 | a run in which `execute` is sent twice under one key: 202 and one body both times, one win, one audit record |
| `AnchorStatus.ParsesExactlyNames` | src/services/anchor-status.ts:134-136 | a string is a known status exactly when it is that status's name |
| `AnchorStatus.StatusNames` | src/services/sep24-types.ts:56-73 | the sixteen names |
| `AnchorStatus.TransitionsInWords` | src/services/anchor-status.ts:68-115 | the transition map in closed form, without its table |
| `AnchorStatus.CirculatingEdges` | src/services/anchor-status.ts:68-115 | the circulating pending statuses reach one another and every terminal status, and nothing else |
| `AnchorSessions.SessionStore.ApplyTransition` | src/services/anchor-status.ts:157-271 | under any interference between its read and its update: the status, extra data, history and audit it leaves in every case; without a change only a delivery of the status read stores its extra data, and every other writer leaves the session as it found it |
| `AnchorSessions.AttemptsIff` | src/services/anchor-status.ts:183-226 | a writer goes on to its update exactly when owner, known status, map and expected status allow it |
| `AnchorSessions.StepsAreApplyTransition` | src/services/anchor-status.ts:183-271 | the steps of a writer in the step system read and write as the transaction does, case by case |
| `AnchorSessions.HistoryIsAPath` | src/services/anchor-status.ts:183-271 | in every interleaving `incomplete` and the history form a path of the map ending at the current status, and the i-th audit record is its i-th edge |
| `AnchorSessions.PathsAreWellShaped` | src/services/anchor-status.ts:68-115 | every path of the map re-enters `incomplete` never, has `pending_user_transfer_start` only first, reaches `completed` only from pending, and continues after a terminal status only by `error` to `refunded` |
| `AnchorSessions.EverySessionIsWellShaped` | src/services/anchor-status.ts:215-237 | the same of the history of every session in every run |
| `AnchorSessions.FinalIsFinal` | src/services/anchor-status.ts:215-237 | once at a final status, a session keeps its status and history in all later states |
| `AnchorSessions.ExtraIsLastStored` | src/services/anchor-status.ts:202-237 | in every interleaving the extra data are those of the last writer that won or that delivered the status it had read once more |
| `Listing.SortIsTheArrangement` | src/lib/pagination.ts:157-159 | any correct sort by `(createdAt, id)` gives the same list |
| `Listing.SortIsStable` | src/routes/settlements.ts:1216-1224 | rows at one position keep the order they came in |
| `Listing.TakeInsertAll` | src/lib/pagination.ts:192-194 | the first n of a sorted insertion depend only on the first n before it |
| `Pagination.CursorRoundTrip` | src/lib/pagination.ts:108-134 | a cursor decodes to the position it was made from exactly when the id is not empty and the date is representable, underscores or not |
| `Pagination.CursorFitsSchemaIff` | src/lib/pagination.ts:81 | a cursor is within the 512 characters the query schema accepts exactly when its text has at most 384 bytes |
| `Pagination.StartsAtTopIff` | src/lib/pagination.ts:143-150 | only an absent or empty cursor starts at the top; any other is decoded or refused |
| `Pagination.CursorFilterResumesAfter` | src/lib/pagination.ts:173-190 | the resume condition is the strict page order after the cursor |
| `Pagination.PageOfWindow` | src/lib/pagination.ts:192-221 | fetching one row more than the page is enough to cut it |
| `Pagination.PageCutsCleanly` | src/lib/pagination.ts:203-221 | a page is the ordered beginning of the rows after its cursor, at most `limit` of them, and says that there are more exactly when a row is left over |
| `Pagination.WalkGoesOn` | src/lib/pagination.ts:143-150 | a next cursor is never rejected and resumes after the last row returned, whatever the table has become |
| `Pagination.NoRowTwice` | src/lib/pagination.ts:157-221 | with writes between pages, a walk returns rows in strictly increasing order |
| `Pagination.NoRowSkipped` | src/lib/pagination.ts:157-221 | a walk that ended returned every row present throughout, exactly once |
| `Pagination.StaticWalk` | src/lib/pagination.ts:157-221 | with no writes a walk of n pages has ended exactly when n pages hold all the rows, no page but the first is ever empty, and an ended walk has returned exactly the sorted rows |
| `Ledger.ComparatorsAgree` | src/routes/settlements.ts:1216-1224 | both merge comparators are the page order on rows at different positions |
| `Ledger.HistoryCompareHasNoTies` | src/routes/history.ts:149-155 | on tied rows the history comparator puts each before the other |
| `Ledger.WindowsSuffice` | src/routes/settlements.ts:1158-1224 | the first rows of the sorted union are those of the sorted windows |
| `Ledger.MergedPageIsPageOfUnion` | src/routes/settlements.ts:1158-1227 | items, `hasMore` and next cursor of the merge are those of paging the union, for any number of tables with distinct positions |
| `Ledger.MergedWalkIsComplete` | src/routes/history.ts:79-160 | the walks of the ledger and the history: no row twice, none that was there throughout missed, and without writes the sorted union in as many pages as hold it |
| `Ledger.MergedWalksCompleteIff` | src/routes/settlements.ts:1158-1227 | every merged walk that ends returns every row, at every page size and in both orders, exactly when positions are distinct across the tables |
| `Ledger.TiedRowIsSkipped` | src/routes/settlements.ts:1216-1227 | two rows at one position under the ledger's stable sort: the second table's is never returned |
| `WorkerLock.LockTable.Acquire` | src/services/worker-lock.ts:11-27 | under any interference before the upsert: granted exactly when the key is free at the statement, and only then written |
| `WorkerLock.LockTable.Release` | src/services/worker-lock.ts:30-34 | the row goes exactly when it names this owner; every other row stays |
| `WorkerLock.OneLiveLease` | src/services/worker-lock.ts:10-28 | at every moment of every run a key has at most one lease neither expired nor released, and it is the one in the table |
| `WorkerLock.GrantsAreApart` | src/services/worker-lock.ts:16-26 | a client at most d behind keeps its key for ttl - d unless its owner releases |
| `WorkerLock.GapIsTight` | src/services/worker-lock.ts:16-26 | for every ttl and lag a run with grants exactly ttl - d apart |
| `WorkerLock.DeadHolderIsReplaced` | src/services/worker-lock.ts:10-28 | at most ttl plus the client's lead after a grant, any attempt on the key succeeds |
| `WorkerLock.DeniedIffRowUnexpired` | src/services/worker-lock.ts:20-25 | an attempt is denied exactly while the current grant's deadline is ahead |
| `WorkerLock.SuccessorSparedIff` | src/services/worker-lock.ts:29-34 | giving back an old lease leaves the current one alone exactly when their owners differ |
| `WorkerLock.ReleasesSpareIff` | src/services/worker-lock.ts:29-34 | in every run, releases remove only their own rows exactly when none is executed for a key that another grant of its owner has by then |
| `WorkerLock.ReleaseSparesSuccessors` | src/services/worker-lock.ts:29-34 | when each owner takes its leases one after the other, owners reused or not, a release removes its own lease's row or none |
| `WorkerLock.AwaitedRunsAreSerial` | src/worker/index.ts:1755-1821 | a process that gives every lease back, once, before it attempts again takes them one after the other, under one owner name |
| `WorkerLock.FreshOwnersAreSerial` | src/services/worker-lock.ts:11-15 | so does whoever uses an owner per lease |
| `WorkerLock.OverlappingLeasesCollide` | src/services/worker-lock.ts:30-34 | a run, made by no caller, in which an owner's overlapping leases collide: being serial is needed |
| `AnchorCircuit.AnchorCircuitBreaker.Get` | src/services/anchor-circuit.ts:34-46 | returns the provider's circuit, creating a fresh one that is then stored |
| `AnchorCircuit.AnchorCircuitBreaker.RecordFailure` | src/services/anchor-circuit.ts:49-66 | the provider's circuit takes the failure step, nothing else changes, true exactly on opening |
| `AnchorCircuit.AnchorCircuitBreaker.RecordSuccess` | src/services/anchor-circuit.ts:69-80 | the provider's circuit takes the success step, nothing else changes |
| `AnchorCircuit.AnchorCircuitBreaker.IsOpen` | src/services/anchor-circuit.ts:83-103 | the provider's circuit takes the query step, nothing else changes, true exactly while it blocks |
| `AnchorCircuit.AnchorCircuitBreaker.ResetProvider` | src/services/anchor-circuit.ts:105-114 | the provider's circuit is fresh again, nothing else changes |
| `AnchorCircuit.ProvidersAreIndependent` | src/services/anchor-circuit.ts:22-114 | after any calls a provider's circuit is what the calls on it alone make it |
| `AnchorCircuit.ClosedBelowThresholdIff` | src/services/anchor-circuit.ts:49-66 | closed circuits always have fewer failures than the threshold, exactly for thresholds of at least one |
| `AnchorCircuit.OpeningBlocksIff` | src/services/anchor-circuit.ts:83-103 | an opening at T blocks every query before T plus the cooldown, absent success and reset, exactly when T is not 0 |
| `AnchorCircuit.FirstLateQueryProbes` | src/services/anchor-circuit.ts:89-101 | the first query after the cooldown passes and leaves the circuit half-open |
| `AnchorCircuit.OpeningAtZeroIsInert` | src/services/anchor-circuit.ts:89 | an opening at time 0 blocks nothing and never half-opens |
| `AnchorCircuit.HalfOpenNeverBlocks` | src/services/anchor-circuit.ts:58-66 | until a success or reset a half-open circuit lets everything through, failures or not |
| `AnchorCircuit.BlockingNeedsAFullThreshold` | src/services/anchor-circuit.ts:49-103 | after a half-open state nothing is blocked before a close and a whole threshold of later failures |
| `AnchorCircuit.OpeningsArePaidFor` | src/services/anchor-circuit.ts:58-63 | threshold times the number of openings is at most the number of failures recorded |
| `AnchorCircuit.SuccessWhileClosedIsForgotten` | src/services/anchor-circuit.ts:69-80 | leaving out a success on a closed circuit changes nothing after it |
| `AnchorCircuit.StateFromCalls` | src/services/anchor-circuit.ts:49-80 | failure count and state of a circuit from its calls alone: the failures since the last reset or closing success |
| `AnchorCircuit.OpensExactlyAtThreshold` | src/services/anchor-circuit.ts:58-63 | a failure opens the circuit exactly when it is the threshold-th of those |
| `AnchorCircuit.CountsConsecutiveIff` | src/services/anchor-circuit.ts:1-8 | the count is at least that of consecutive failures, and equal exactly when no success came between counted failures |
| `AnchorCircuit.OpeningIsConsecutiveIff` | src/services/anchor-circuit.ts:1-8 | an opening comes after a threshold of consecutive failures exactly when no success came between them |
| `AnchorCircuit.FailuresNeedNotBeConsecutive` | src/services/anchor-circuit.ts:1-8 | for every threshold, failures with a success between any two open the circuit |
| `Money.AcceptsExactly` | src/lib/money.ts:239-325 | `validateAmount` accepts exactly the plain decimals of at most 7 places worth 1 to 2^63 - 1 stroops, and returns that value |
| `Money.Verdicts` | src/lib/money.ts:246-325 | the verdict on every text: by places and value for one that spells a decimal, by its outer spaces for any other |
| `Money.CanonicalIsPrinted` | src/lib/money.ts:317-324 | the decimal returned is what `fromStroops` prints for the value |
| `Money.PrintedAmountsAreCanonical` | src/lib/money.ts:336-342 | validating a printed amount gives it back unchanged with its value |
| `Money.ValidationIsANormalForm` | src/lib/money.ts:246-325 | validation is a fixpoint on its output, and equal stroops are equal decimals |
| `Money.ToStroopsInvertsFromStroops` | src/lib/money.ts:327-342 | reading inverts the canonical printer on every non-negative number |
| `Money.ToStroopsInvertsStellarAmount` | src/lib/money.ts:347-353 | reading inverts the seven-place printer on every non-negative number |
| `Money.ReadsBackIff` | src/lib/money.ts:327-342 | reading inverts printing exactly on numbers that are not negative or are whole |
| `Money.ReadsSevenPlaces` | src/lib/money.ts:331-335 | of unvalidated digits, with or without a whole part, seven places are read and the rest is dropped |
| `Money.SubtractAfterAdd` | src/lib/money.ts:368-381 | subtracting what was added gives the canonical first operand |
| `Money.AmountArithmetic` | src/lib/money.ts:359-381 | on validated amounts addition is exact, subtraction undoes it and fails exactly below zero, comparison is that of the values |
| `Base64.DecodeEncode` | src/lib/pagination.ts:108-114 | decoding inverts encoding, both alphabets (sections 4 and 5 of RFC 4648) |
| `Base64.EncodeDecode` | src/lib/memo.ts:214-221 | a text is its own re-encoding exactly when it is well formed and has no stray bits (section 3.5 of RFC 4648) |
| `Utf8.DecodeEncode` | src/lib/pagination.ts:108-114 | decoding inverts UTF-8 encoding for every text |
| `Utf8.DecodesIff` | src/lib/pagination.ts:108-114 | bytes decode to a text exactly when they are its encoding; overlong forms do not decode (section 3 of RFC 3629) |
| `Memo.ParseInvertsPrint` | src/lib/memo.ts:93-136 | a text parses to a code exactly when it is that code's reference and the code fits |
| `Memo.CarriableIff` | src/lib/memo.ts:18-73 | a code fits when it has 1 to 25 capitals and digits, without I, O, 0 and 1 |
| `Memo.FailuresAreExact` | src/lib/memo.ts:93-136 | which of the failures a text that is no reference gets, from the text alone |
| `Memo.NoCodeIsUnreachable` | src/lib/memo.ts:124-126 | the test for an empty code never fires |
| `Memo.MatchIsWellFormed` | src/lib/memo.ts:214 | the regular expression accepts exactly the well-formed base64 texts |
| `Memo.ValidHashMemoIff` | src/lib/memo.ts:216-221 | a valid hash memo is exactly the encoding of some 32 bytes |
| `Memo.ValidHashMemoShape` | src/lib/memo.ts:214-221 | the same, character by character: length, alphabet, padding, last digit |
| `Memo.AttributedIff` | src/lib/memo.ts:244-301 | a payment is attributed exactly when it has a text memo that is the expected code's reference |
| `Memo.AtMostOneCode` | src/lib/memo.ts:244-301 | one memo is attributed to at most one code |
| `Memo.RefusalsAreExact` | src/lib/memo.ts:255-298 | a code mismatch means another well-formed reference, a hash mismatch a genuine 32-byte hash, and conversely |
| `Memo.OtherRefusalsAreExact` | src/lib/memo.ts:244-287 | a missing memo, an unknown kind, a hash that is not 32 bytes and a malformed text are each reported exactly for that |
| `Memo.WrittenMemoIsAttributedIff` | src/services/stellar.ts:219-223 | the memo written for a code is attributed to it exactly when the code fits |
| `AnchorSchemas.ParseSep24TransactionResponse` | src/services/anchor-schemas.ts:138-166 | succeeds exactly when the envelope and required fields are valid, with precisely the malformed optional fields left out and reported; fails only with the first parse's issues |
| `AnchorSchemas.AllDroppedIff` | src/services/anchor-schemas.ts:144-148 | every issue is on an optional field exactly when the response is readable |
| `AnchorSchemas.IssuesNameFields` | src/services/anchor-schemas.ts:119-133 | what the first parse complains of: the body, its transaction, or each problem of each field under the name of the field |
| `AnchorSchemas.DroppedAreMalformed` | src/services/anchor-schemas.ts:150-155 | the deduplicated fields of the issues are the malformed optional fields in schema order |
| `AnchorSchemas.SecondParseSucceeds` | src/services/anchor-schemas.ts:157-160 | the second parse has no issues, so its failure branch is unreachable |
| `AnchorSchemas.FieldNames` | src/services/anchor-schemas.ts:55-87 | the required and the optional fields |
| `AnchorSchemas.KeptFields` | src/services/anchor-schemas.ts:55-87 | a field of a readable response is kept exactly when it is of the schema and valid, or optional and null, with the value its validator makes of it |
| `AnchorSchemas.ResolvesAsUnderstood` | src/services/anchor-schemas.ts:174-199 | a raw string resolves to a status exactly when, trimmed and lower-cased, it is understood as that status, as legacy exactly when it is one of the two deprecated names, and to nothing otherwise, except for two inherited names |
| `Text.TrimTakesSpace` | src/services/anchor-schemas.ts:192 | trimming takes away the space around a text and nothing else |
| `Text.SpacesByCode` | src/lib/money.ts:248 | what `trim` counts as space, by code |
| `Text.LowersTo` | src/services/anchor-schemas.ts:192 | what lower-cases to a given small letter: itself, its capital, and for `k` the Kelvin sign |
| `SensitiveKeys.SensitiveIff` | src/lib/serializers.ts:101-104 | a key is censored when its folded spelling is listed, or when it is one of three names as listed |
| `SensitiveKeys.CensoredNames` | src/lib/serializers.ts:60-104 | the names that are censored, in every spelling |
| `SensitiveKeys.SpellingsAgreeIff` | src/lib/serializers.ts:93-104 | all spellings of a name are treated alike, except exactly three names |
| `SensitiveKeys.ErrorFieldsAreNotSensitive` | src/lib/serializers.ts:392-429 | no field of a serialized error is taken for a credential |
| `Sanitizer.LogSanitizer.SanitizeForLog` | src/lib/serializers.ts:325-359 | on any graph, cyclic or not: terminates, restores the guard, and is the copy below the path it was called on |
| `Sanitizer.LogSanitizer.ApplicationErrorFields` | src/lib/serializers.ts:392-429 | the fields an error carries over, its details copied below its path, the guard restored |
| `Sanitizer.CopyIsFit` | src/lib/serializers.ts:325-359 | every copy nests at most four deep and shows `[REDACTED]` under every credential key |
| `Sanitizer.SanitizingAgainChangesNothing` | src/lib/serializers.ts:325-359 | sanitizing a copy, wherever it now lives in a heap, gives it back |
| `Sanitizer.CopyAlongWalk` | src/lib/serializers.ts:344-352 | along every walk through the graph the copy shows the copy of what is reached |
| `Sanitizer.MarksAreExact` | src/lib/serializers.ts:332-334 | a container shows `[CIRCULAR]` exactly when it is its own ancestor on the walk, `[TRUNCATED]` exactly four deep |
| `Sanitizer.EveryPartIsExplained` | src/lib/serializers.ts:325-359 | every part of a copy lies on a walk, is a censored field, or is an error's own text |
| `Sanitizer.ErrorShowsItsFields` | src/lib/serializers.ts:368-429 | the copy of an error, looked up under any key: message, stack, name, status, the four texts, the copy of its details, and nothing else |
| `Sanitizer.LeavesAlongWalk` | src/lib/serializers.ts:330-331 | at the end of any walk a date shows its ISO text and whatever is no object shows itself |
| `TimeBounds.ExpiresAtItsLapse` | src/lib/time-bounds.ts:89-116 | to the millisecond, when an intent expires |
| `TimeBounds.BothChecksBoundAge` | src/lib/time-bounds.ts:110-219 | an envelope that passes both checks is at most 330 seconds old |
| `TimeBounds.EnvelopeCheckBoundsAge` | src/lib/time-bounds.ts:175-219 | by the envelope check alone, at most 360 |
| `TimeBounds.AgeLimitsAreReached` | src/lib/time-bounds.ts:89-219 | both limits are reached for every requested validity |
| `TimeBounds.EnvelopeWindow` | src/lib/time-bounds.ts:175-219 | the verdict on any envelope at any instant, by the interval of milliseconds in which it is good |
| `TimeBounds.ChecksAgreeIff` | src/lib/time-bounds.ts:110-209 | the two checks agree at every instant exactly when `maxTime` is the deadline in whole seconds |
| `TimeBounds.BuiltEnvelopeFitsIff` | src/services/stellar.ts:411-415 | the service's own envelope is refused exactly when building it took more than the tolerance, and otherwise lives at least as long as its intent |
| `TimeBounds.FilterIsInverse` | src/services/settlement-history.ts:117-147 | at every instant each row is listed under the one status a direct read reports, and under no other |

## Left out

- Clocks: the reservation protocol runs on one clock, and a timestamp is the reading its write was prepared with; lease attempts carry both clocks.
- Idempotency.PayloadBinding: states the premise that sweeps spare held rows; SweepKeepsBindingIff shows that it is exactly what is needed.
- Idempotency.ExclusiveHolder: states the premise that no holder outlives the timeout, since an overdue holder can be joined (OverdueHolderIsJoined).
- Settlements.SettlementStore.RunConfirm: the `runIdempotent` wrapper around `confirm`, the expense share that a confirmation settles, and the webhooks it announces are not modelled.
- Executions.OneAcceptance: concerns one settlement; which request hashes name it is given.
- AnchorSessions.SessionStore.ApplyTransition: the extra data are one value, without the columns they spread over; the raw status that an audit record may carry, and a session that does not exist, are left out.
- More than one settlement or anchor session in a run: no statement of the modelled code relates two of them.
- Settlement history rows with equal timestamps: the newest row is the one written last.
- The other scopes of the reservation table, which src/services/idempotency.ts uses, and the header's own syntax.
- Parsing and re-printing of a recorded response body by `JSON.parse` on replay.
- Numbers in request bodies are given by what they print as, so 0 and -0, and null and an overflowing number, are one value; lone surrogates in strings are not modelled.
- SHA-256 is a collision-free parameter; Zod's validators for single fields are a parameter too.
- Forged cursors: Node's lenient decoding of malformed base64url, and other spellings that `Number()` accepts, are not modelled; every cursor the API hands out is, within the query schema's 512 characters (CursorFitsSchemaIff).
- `offset`, totals, and the date and scope filters of the list routes: tables hold the rows the filters select. Ids are ordered by scalar value; database collation is left out.
- The asset registry, rate tables and the remaining spellings that `BigInt()` accepts (hexadecimal, signs, spaces) in unvalidated text.
- Memo.WrittenMemoIsAttributedIff: counts the characters of a code where the code counts UTF-16 units; codes outside ASCII are never attributed either way.
- AnchorSchemas.ResolvesAsUnderstood: lower-cases as far as that can produce ASCII, which is all that the names are compared in.
- Sanitizer.LogSanitizer.SanitizeForLog: throwing getters, invalid dates, and the order of properties a copy's prototype would add are not modelled; the request, response and Stellar serializers around it are left out.
- `readTimeBounds` on fractional or unparsable bounds.
- Fastify wiring, authentication, Horizon, anchor HTTP calls, XDR parsing and treasury signatures: input and output.
- Group roles, exchange rates and API serializers: they would only add easy members.
