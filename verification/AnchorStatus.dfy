/** Statuses of a session. */
module AnchorStatus {
  // The SEP-24 statuses of an anchor session and the map of allowed transitions (src/services/anchor-status.ts,
  // src/services/sep24-types.ts).

  import opened Basics

  datatype Status =
    | Incomplete
    | PendingUserTransferStart | PendingUser | PendingTransactionInfoUpdate | PendingReceiver
    | PendingSender | PendingStellar | PendingTrust | PendingAnchor
    | Completed | Error | Refunded | Expired | NoMarket | TooSmall | TooLarge

  function Name(s: Status): string {
    match s
    case Incomplete => "incomplete"
    case PendingUserTransferStart => "pending_user_transfer_start"
    case PendingUser => "pending_user"
    case PendingTransactionInfoUpdate => "pending_transaction_info_update"
    case PendingReceiver => "pending_receiver"
    case PendingSender => "pending_sender"
    case PendingStellar => "pending_stellar"
    case PendingTrust => "pending_trust"
    case PendingAnchor => "pending_anchor"
    case Completed => "completed"
    case Error => "error"
    case Refunded => "refunded"
    case Expired => "expired"
    case NoMarket => "no_market"
    case TooSmall => "too_small"
    case TooLarge => "too_large"
  }

  /** Every status, in the order the source lists them. */
  const STATUSES: seq<Status> := [
    Incomplete, PendingUserTransferStart, PendingUser, PendingTransactionInfoUpdate, PendingReceiver,
    PendingSender, PendingStellar, PendingTrust, PendingAnchor,
    Completed, Error, Refunded, Expired, NoMarket, TooSmall, TooLarge]

  function FindStatus(name: string, among: seq<Status>): Option<Status> {
    if among == [] then None
    else if Name(among[0]) == name then Some(among[0])
    else FindStatus(name, among[1..])
  }

  /** The known status a string names, if it names one. */
  function ParseStatus(name: string): Option<Status> {
    FindStatus(name, STATUSES)
  }

  lemma {:induction false} FindStatusSound(name: string, among: seq<Status>)
    ensures match FindStatus(name, among)
            case Some(s) => s in among && Name(s) == name
            case None => forall s :: s in among ==> Name(s) != name
  {
    if among != [] { FindStatusSound(name, among[1..]); }
  }

  lemma NamesDiffer(a: Status, b: Status)
    requires Name(a) == Name(b)
    ensures a == b
  {
    var la, lb := |Name(a)|, |Name(b)|;
    var xa, xb := Name(a)[la - 3], Name(b)[lb - 3];
  }

  /** A string parses to a status exactly when it is that status's name. */
  lemma ParsesExactlyNames(name: string, s: Status)
    ensures ParseStatus(name) == Some(s) <==> name == Name(s)
  {
    FindStatusSound(name, STATUSES);
    assert s in STATUSES;
    if name == Name(s) && ParseStatus(name).Some? {
      NamesDiffer(s, ParseStatus(name).value);
    }
  }

  /** The names on the wire. */
  lemma StatusNames()
    ensures ParseStatus("incomplete") == Some(Incomplete) && ParseStatus("pending_user_transfer_start") == Some(PendingUserTransferStart)
    ensures ParseStatus("pending_user") == Some(PendingUser) && ParseStatus("pending_receiver") == Some(PendingReceiver)
    ensures ParseStatus("pending_transaction_info_update") == Some(PendingTransactionInfoUpdate)
    ensures ParseStatus("pending_sender") == Some(PendingSender) && ParseStatus("pending_stellar") == Some(PendingStellar)
    ensures ParseStatus("pending_trust") == Some(PendingTrust) && ParseStatus("pending_anchor") == Some(PendingAnchor)
    ensures ParseStatus("completed") == Some(Completed) && ParseStatus("error") == Some(Error)
    ensures ParseStatus("refunded") == Some(Refunded) && ParseStatus("expired") == Some(Expired)
    ensures ParseStatus("no_market") == Some(NoMarket) && ParseStatus("too_small") == Some(TooSmall)
    ensures ParseStatus("too_large") == Some(TooLarge)
  {
    hide ParseStatus;
    ParsesExactlyNames("incomplete", Incomplete);
    ParsesExactlyNames("pending_user_transfer_start", PendingUserTransferStart);
    ParsesExactlyNames("pending_user", PendingUser);
    ParsesExactlyNames("pending_receiver", PendingReceiver);
    ParsesExactlyNames("pending_transaction_info_update", PendingTransactionInfoUpdate);
    ParsesExactlyNames("pending_sender", PendingSender);
    ParsesExactlyNames("pending_stellar", PendingStellar);
    ParsesExactlyNames("pending_trust", PendingTrust);
    ParsesExactlyNames("pending_anchor", PendingAnchor);
    ParsesExactlyNames("completed", Completed);
    ParsesExactlyNames("error", Error);
    ParsesExactlyNames("refunded", Refunded);
    ParsesExactlyNames("expired", Expired);
    ParsesExactlyNames("no_market", NoMarket);
    ParsesExactlyNames("too_small", TooSmall);
    ParsesExactlyNames("too_large", TooLarge);
  }

  predicate IsPending(s: Status) {
    s in {PendingUserTransferStart, PendingUser, PendingTransactionInfoUpdate, PendingReceiver,
          PendingSender, PendingStellar, PendingTrust, PendingAnchor}
  }

  predicate IsTerminal(s: Status) {
    s in {Completed, Error, Refunded, Expired, NoMarket, TooSmall, TooLarge}
  }

  function AllowedTransitions(from: Status): set<Status> {
    match from
    case Incomplete => {
      PendingUserTransferStart, PendingUser, PendingTransactionInfoUpdate,
      PendingReceiver, PendingSender, PendingStellar, PendingTrust, PendingAnchor,
      Error, Expired, NoMarket, TooSmall, TooLarge}
    case PendingUserTransferStart => {
      PendingUser, PendingTransactionInfoUpdate, PendingReceiver, PendingSender,
      PendingStellar, PendingTrust, PendingAnchor, Error, Refunded, Completed,
      Expired, NoMarket, TooSmall, TooLarge}
    case PendingUser => {
      PendingTransactionInfoUpdate, PendingReceiver, PendingSender, PendingStellar,
      PendingTrust, PendingAnchor, Error, Refunded, Completed, Expired, NoMarket,
      TooSmall, TooLarge}
    case PendingTransactionInfoUpdate => {
      PendingUser, PendingReceiver, PendingSender, PendingStellar, PendingTrust,
      PendingAnchor, Error, Refunded, Completed, Expired, NoMarket, TooSmall, TooLarge}
    case PendingReceiver => {
      PendingUser, PendingTransactionInfoUpdate, PendingSender, PendingStellar, PendingTrust,
      PendingAnchor, Error, Refunded, Completed, Expired, NoMarket, TooSmall, TooLarge}
    case PendingSender => {
      PendingUser, PendingTransactionInfoUpdate, PendingReceiver, PendingStellar, PendingTrust,
      PendingAnchor, Error, Refunded, Completed, Expired, NoMarket, TooSmall, TooLarge}
    case PendingStellar => {
      PendingUser, PendingTransactionInfoUpdate, PendingReceiver, PendingSender, PendingTrust,
      PendingAnchor, Error, Refunded, Completed, Expired, NoMarket, TooSmall, TooLarge}
    case PendingTrust => {
      PendingUser, PendingTransactionInfoUpdate, PendingReceiver, PendingSender, PendingStellar,
      PendingAnchor, Error, Refunded, Completed, Expired, NoMarket, TooSmall, TooLarge}
    case PendingAnchor => {
      PendingUser, PendingTransactionInfoUpdate, PendingReceiver, PendingSender, PendingStellar,
      PendingTrust, Error, Refunded, Completed, Expired, NoMarket, TooSmall, TooLarge}
    case Error => {Refunded}
    case _ => {}
  }

  predicate CanTransition(from: Status, to: Status) {
    to in AllowedTransitions(from)
  }

  /** The seven pending statuses that may follow each other in any order. */
  predicate Circulates(s: Status) {
    IsPending(s) && s != PendingUserTransferStart
  }

  /** From one of those seven, every other one and every terminal status is allowed, and nothing else. */
  lemma CirculatingEdges(from: Status, to: Status)
    requires Circulates(from)
    ensures CanTransition(from, to) <==> to != from && (Circulates(to) || IsTerminal(to))
  {
    match from
    case PendingUser =>
    case PendingTransactionInfoUpdate =>
    case PendingReceiver =>
    case PendingSender =>
    case PendingStellar =>
    case PendingTrust =>
    case PendingAnchor =>
  }

  /** The map in closed form: what may follow what, without listing it. */
  lemma TransitionsInWords(from: Status, to: Status)
    ensures CanTransition(from, to) <==>
      match from
      case Incomplete => IsPending(to) || (IsTerminal(to) && to != Completed && to != Refunded)
      case Error => to == Refunded
      case _ => IsPending(from) && to != from && (Circulates(to) || IsTerminal(to))
  {
    if Circulates(from) { CirculatingEdges(from, to); }
  }
}
