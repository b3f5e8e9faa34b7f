/** `AdminPaymentController::index`: every payment, newest first, with its ticket's
    control number, its violator's name and its cashier's name. */
module AdminPayments {
  import opened Wrappers
  import opened Seqs
  import opened Records

  /** One entry of `data`. */
  datatype Row = Row(
    id: nat,
    receiptNo: Option<string>,
    controlNo: Option<string>,
    violatorName: Option<string>,
    amount: Cents,
    status: PaymentStatus,
    paidAt: Option<Instant>,
    cashierName: Option<string>)

  /** `orderByDesc('paid_at')->orderByDesc('id')`, a null `paid_at` counting as the
      smallest time (so it sorts last). */
  predicate NewerFirst(a: Payment, b: Payment)
  {
    match (a.paidAt, b.paidAt)
    case (Some(x), Some(y)) => x > y || (x == y && a.id >= b.id)
    case (Some(_), None) => true
    case (None, Some(_)) => false
    case (None, None) => a.id >= b.id
  }

  lemma NewerFirstPreorder(s: seq<Payment>)
    ensures TotalPreorderOn(s, NewerFirst)
  {
  }

  /** The ticket of a payment, through the `ticket` relation. */
  function TicketOf(db: Db, p: Payment): Option<Ticket>
  {
    match FindTicket(db.tickets, p.ticketId)
    case None => None
    case Some(k) => Some(db.tickets[k])
  }

  /** `$p->recordedBy?->full_name` */
  function CashierName(users: seq<User>, p: Payment): Option<string>
  {
    match p.recordedBy
    case None => None
    case Some(u) =>
      match FindUser(users, u)
      case None => None
      case Some(k) => users[k].fullName
  }

  function RowOf(db: Db, users: seq<User>, p: Payment): Row
  {
    var ticket := TicketOf(db, p);
    Row(p.id, p.receiptNo,
        if ticket.Some? then Some(ticket.value.controlNo) else None,
        if ticket.Some? && ViolatorOf(db, ticket.value).Some? then Some(ViolatorOf(db, ticket.value).value.name) else None,
        p.amount, p.status, p.paidAt, CashierName(users, p))
  }

  /** The payments in listing order. */
  function Ordered(db: Db): seq<Payment>
  {
    SortBy(db.payments, NewerFirst)
  }

  /** `index`; `users` is the table behind the `recordedBy` relation. */
  function Index(db: Db, users: seq<User>): seq<Row>
  {
    Map(Ordered(db), (p: Payment) => RowOf(db, users, p))
  }

  /** Every payment, recorded or reversed, is listed exactly once, newest `paid_at` first
      and the higher id first among equal times. */
  lemma OrderedSpec(db: Db)
    ensures multiset(Ordered(db)) == multiset(db.payments)
    ensures forall i, j :: 0 <= i < j < |Ordered(db)| ==> NewerFirst(Ordered(db)[i], Ordered(db)[j])
  {
    NewerFirstPreorder(db.payments);
    SortBySorted(db.payments, NewerFirst);
  }

  /** Each row copies its payment's id, receipt, amount, status and time; the related
      names are null exactly when the related row (or its column) is missing. The
      violator's name is that of the violator the payment's ticket points at: one such
      violator when it is listed, and null when the ticket or its violator is missing. */
  lemma RowOfSpec(db: Db, users: seq<User>, p: Payment)
    ensures var row := RowOf(db, users, p);
      && row.id == p.id && row.receiptNo == p.receiptNo && row.amount == p.amount
      && row.status == p.status && row.paidAt == p.paidAt
      && (row.controlNo.None? <==> !HasTicket(db.tickets, p.ticketId))
      && (row.controlNo.Some? ==> exists k :: 0 <= k < |db.tickets| && db.tickets[k].id == p.ticketId && db.tickets[k].controlNo == row.controlNo.value)
      && (row.violatorName.Some? ==> row.controlNo.Some?)
      && (row.violatorName.Some? ==>
            exists k, j :: 0 <= k < |db.tickets| && db.tickets[k].id == p.ticketId
              && 0 <= j < |db.violators| && db.violators[j].id == db.tickets[k].violatorId
              && db.violators[j].name == row.violatorName.value)
      && ((forall k :: 0 <= k < |db.tickets| && db.tickets[k].id == p.ticketId ==>
             forall j :: 0 <= j < |db.violators| ==> db.violators[j].id != db.tickets[k].violatorId)
          ==> row.violatorName.None?)
      && (KeysUnique(db) ==>
            forall k, j :: 0 <= k < |db.tickets| && db.tickets[k].id == p.ticketId
              && 0 <= j < |db.violators| && db.violators[j].id == db.tickets[k].violatorId
              ==> row.violatorName == Some(db.violators[j].name))
      && (row.cashierName.Some? ==>
            p.recordedBy.Some? && exists k :: 0 <= k < |users| && users[k].id == p.recordedBy.value && users[k].fullName == row.cashierName)
      && (p.recordedBy.None? || (forall k :: 0 <= k < |users| ==> users[k].id != p.recordedBy.value) ==> row.cashierName.None?)
  {
    HasTicketFind(db.tickets, p.ticketId);
    var row := RowOf(db, users, p);
    match FindTicket(db.tickets, p.ticketId)
    case None =>
    case Some(k) =>
      match FindViolator(db.violators, db.tickets[k].violatorId)
      case None =>
      case Some(j) =>
        assert row.violatorName == Some(db.violators[j].name);
        if KeysUnique(db) {
          forall k', j' | 0 <= k' < |db.tickets| && db.tickets[k'].id == p.ticketId
            && 0 <= j' < |db.violators| && db.violators[j'].id == db.tickets[k'].violatorId
            ensures row.violatorName == Some(db.violators[j'].name)
          {
            assert k' == k;
            assert j' == j;
          }
        }
  }

  /** The listing has one row per payment, in listing order, and a payment appears in it
      exactly when it is in the ledger. */
  lemma IndexSpec(db: Db, users: seq<User>)
    ensures |Index(db, users)| == |db.payments|
    ensures forall i :: 0 <= i < |db.payments| ==> Index(db, users)[i] == RowOf(db, users, Ordered(db)[i])
    ensures forall p :: p in db.payments <==> p in Ordered(db)
  {
    OrderedSpec(db);
    forall p ensures p in db.payments <==> p in Ordered(db) {
      assert p in db.payments <==> p in multiset(db.payments);
      assert p in Ordered(db) <==> p in multiset(Ordered(db));
    }
  }
}
