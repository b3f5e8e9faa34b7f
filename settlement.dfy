/** The settlement engine of `ClerkPaymentController`: the outstanding-balance lookup,
    the guarded payment recorder with its `unpaid -> paid` transition, and the list of
    recent unpaid tickets. The recorder is a transition on the ledger value; the
    `LedgerStore` class applies it in place. */
module Settlement {
  import opened Wrappers
  import opened Seqs
  import opened Text
  import opened Records
  import opened Validation

  // ---------------------------------------------------------------- the balance

  /** `max($ticket->total_amount - $paid, 0)` with `$paid` the recorded payments. */
  function Outstanding(payments: seq<Payment>, t: Ticket): Cents
  {
    var d := t.totalAmount - RecordedSum(payments, t.id);
    if d > 0 then d else 0
  }

  /** The balance is never negative, and otherwise it is what remains of the total. */
  lemma OutstandingIsBalance(payments: seq<Payment>, t: Ticket)
    ensures Outstanding(payments, t) >= 0
    ensures Outstanding(payments, t) >= t.totalAmount - RecordedSum(payments, t.id)
    ensures Outstanding(payments, t) == 0 || Outstanding(payments, t) == t.totalAmount - RecordedSum(payments, t.id)
    ensures Outstanding(payments, t) == 0 <==> RecordedSum(payments, t.id) >= t.totalAmount
  {
  }

  /** Reversed payments, and payments of other tickets, leave the balance as it is. */
  lemma OutstandingIgnoresReversed(payments: seq<Payment>, extra: seq<Payment>, t: Ticket)
    requires forall k :: 0 <= k < |extra| ==> extra[k].status == Reversed || extra[k].ticketId != t.id
    ensures Outstanding(payments + extra, t) == Outstanding(payments, t)
  {
    RecordedSumIgnores(payments, extra, t.id);
  }

  // ---------------------------------------------------------------- lookupTicket

  datatype LookupError = ControlNoRequired | TicketNotFound

  /** The body of a successful lookup: the ticket, its violator, its payments and the balance. */
  datatype TicketLookup = TicketLookup(ticket: Ticket, violator: Option<Violator>, payments: seq<Payment>, outstanding: Cents)

  /** `orderByDesc('paid_at')`: later payments first, payments without a date last. */
  predicate PaidAtDescLe(a: Payment, b: Payment)
  {
    match (a.paidAt, b.paidAt)
    case (Some(x), Some(y)) => x >= y
    case (Some(_), None) => true
    case (None, Some(_)) => false
    case (None, None) => true
  }

  lemma PaidAtDescPreorder(s: seq<Payment>)
    ensures TotalPreorderOn(s, PaidAtDescLe)
  {
  }

  function ForTicket(id: nat): Payment -> bool
  {
    (p: Payment) => p.ticketId == id
  }

  function FindByControlNo(tickets: seq<Ticket>, controlNo: string): (r: Option<nat>)
    ensures r.Some? ==> r.value < |tickets| && tickets[r.value].controlNo == controlNo
    ensures r.None? <==> forall k :: 0 <= k < |tickets| ==> tickets[k].controlNo != controlNo
  {
    IndexWhere(tickets, (t: Ticket) => t.controlNo == controlNo)
  }

  /** `lookupTicket`: `control_no` is required; the first ticket with that number is returned
      with its violator, all its payments (whatever their status, newest first) and the balance. */
  function LookupTicket(db: Db, controlNo: string): Result<TicketLookup, LookupError>
  {
    if !Present(controlNo) then Err(ControlNoRequired)
    else match FindByControlNo(db.tickets, controlNo)
      case None => Err(TicketNotFound)
      case Some(k) =>
        var t := db.tickets[k];
        Ok(TicketLookup(t, ViolatorOf(db, t), SortBy(Filter(db.payments, ForTicket(t.id)), PaidAtDescLe), Outstanding(db.payments, t)))
  }

  /** An absent number is refused, and an unknown one gives not-found and no ticket data. */
  lemma LookupTicketErrors(db: Db, controlNo: string)
    ensures LookupTicket(db, controlNo) == Err(ControlNoRequired) <==> !Present(controlNo)
    ensures LookupTicket(db, controlNo) == Err(TicketNotFound)
        <==> Present(controlNo) && forall k :: 0 <= k < |db.tickets| ==> db.tickets[k].controlNo != controlNo
  {
  }

  /** A found ticket carries the requested number, exactly its own payments newest first,
      and the outstanding balance. */
  lemma LookupTicketFound(db: Db, controlNo: string)
    requires LookupTicket(db, controlNo).Ok?
    ensures var v := LookupTicket(db, controlNo).value;
      && v.ticket in db.tickets && v.ticket.controlNo == controlNo
      && (v.violator.Some? ==> v.violator.value in db.violators && v.violator.value.id == v.ticket.violatorId)
      && (v.violator.None? <==> forall j :: 0 <= j < |db.violators| ==> db.violators[j].id != v.ticket.violatorId)
      && multiset(v.payments) == multiset(Filter(db.payments, ForTicket(v.ticket.id)))
      && (forall i :: 0 <= i < |v.payments| ==> v.payments[i] in db.payments && v.payments[i].ticketId == v.ticket.id)
      && (forall k :: 0 <= k < |db.payments| && db.payments[k].ticketId == v.ticket.id ==> db.payments[k] in v.payments)
      && SortedBy(v.payments, PaidAtDescLe)
      && v.outstanding == Outstanding(db.payments, v.ticket) && v.outstanding >= 0
  {
    var v := LookupTicket(db, controlNo).value;
    var mine := Filter(db.payments, ForTicket(v.ticket.id));
    PaidAtDescPreorder(mine);
    SortBySorted(mine, PaidAtDescLe);
    forall i | 0 <= i < |v.payments| ensures v.payments[i] in db.payments && v.payments[i].ticketId == v.ticket.id {
      assert v.payments[i] in multiset(mine);
    }
    forall k | 0 <= k < |db.payments| && db.payments[k].ticketId == v.ticket.id ensures db.payments[k] in v.payments {
      assert db.payments[k] in multiset(mine);
    }
  }

  // ---------------------------------------------------------------- store

  datatype PaymentRequest = PaymentRequest(ticketId: nat, amount: Cents, receiptNo: string, remarks: Option<string>)

  datatype PaymentError = UnknownTicket | AmountBelowMinimum | ReceiptNoInvalid | RemarksTooLong | ExceedsTotal

  function PaymentId(p: Payment): nat { p.id }

  /** The row `Payment::create` inserts. */
  function NewPayment(db: Db, req: PaymentRequest, recorder: Option<nat>, now: Instant): Payment
  {
    Payment(NextId(db.payments, PaymentId), req.ticketId, recorder, req.amount, Some(req.receiptNo), Some(now), Recorded, req.remarks)
  }

  /** The request rules after the ticket lookup, in the validator's order. */
  function CheckPayment(req: PaymentRequest): (r: Option<PaymentError>)
    ensures r.None? <==> req.amount >= 1 && RequiredString(req.receiptNo, MaxString) && NullableString(req.remarks, MaxString)
    ensures r.Some? ==> r.value in {AmountBelowMinimum, ReceiptNoInvalid, RemarksTooLong}
    ensures req.amount < 1 ==> r == Some(AmountBelowMinimum)
  {
    if req.amount < 1 then Some(AmountBelowMinimum)
    else if !RequiredString(req.receiptNo, MaxString) then Some(ReceiptNoInvalid)
    else if !NullableString(req.remarks, MaxString) then Some(RemarksTooLong)
    else None
  }

  /** The locked part of `store` for the ticket in row `k`: the overpayment guard, the
      insert and the status update. */
  function Settle(db: Db, k: nat, req: PaymentRequest, recorder: Option<nat>, now: Instant): Result<Db, PaymentError>
    requires k < |db.tickets|
  {
    var t := db.tickets[k];
    var newTotalPaid := RecordedSum(db.payments, t.id) + req.amount;
    if newTotalPaid > t.totalAmount + Tolerance then Err(ExceedsTotal)
    else
      var tickets := if newTotalPaid >= t.totalAmount - Tolerance then db.tickets[k := t.(status := Paid)] else db.tickets;
      Ok(db.(payments := db.payments + [NewPayment(db, req, recorder, now)], tickets := tickets))
  }

  /** `store` as a transition of the ledger: the ticket lookup and the validation rules,
      then the settlement. `recorder` is the acting user's id, if any. */
  function RecordPayment(db: Db, req: PaymentRequest, recorder: Option<nat>, now: Instant): Result<Db, PaymentError>
  {
    match FindTicket(db.tickets, req.ticketId)
    case None => Err(UnknownTicket)
    case Some(k) =>
      match CheckPayment(req)
      case Some(e) => Err(e)
      case None => Settle(db, k, req, recorder, now)
  }

  /** Which step decides the outcome of `store`. */
  lemma RecordPaymentCases(db: Db, req: PaymentRequest, recorder: Option<nat>, now: Instant)
    ensures FindTicket(db.tickets, req.ticketId).None? ==> RecordPayment(db, req, recorder, now) == Err(UnknownTicket)
    ensures FindTicket(db.tickets, req.ticketId).Some? && CheckPayment(req).Some? ==>
      RecordPayment(db, req, recorder, now) == Err(CheckPayment(req).value)
    ensures FindTicket(db.tickets, req.ticketId).Some? && CheckPayment(req).None? ==>
      RecordPayment(db, req, recorder, now) == Settle(db, FindTicket(db.tickets, req.ticketId).value, req, recorder, now)
  {
  }

  /** What a request must meet to be accepted: an existing ticket, at least one cent, a
      receipt number, short remarks, and no payment beyond the total plus the tolerance. */
  ghost predicate Acceptable(db: Db, req: PaymentRequest)
  {
    && HasTicket(db.tickets, req.ticketId)
    && req.amount >= 1
    && RequiredString(req.receiptNo, MaxString)
    && NullableString(req.remarks, MaxString)
    && (forall k :: 0 <= k < |db.tickets| && db.tickets[k].id == req.ticketId ==>
          RecordedSum(db.payments, req.ticketId) + req.amount <= db.tickets[k].totalAmount + Tolerance)
  }

  /** A payment is recorded exactly when the request is acceptable; each validation rule
      has its own error, checked before the balance is read. */
  lemma RecordPaymentAccepts(db: Db, req: PaymentRequest, recorder: Option<nat>, now: Instant)
    requires KeysUnique(db)
    ensures RecordPayment(db, req, recorder, now).Ok? <==> Acceptable(db, req)
    ensures !HasTicket(db.tickets, req.ticketId) <==> RecordPayment(db, req, recorder, now) == Err(UnknownTicket)
    ensures HasTicket(db.tickets, req.ticketId) && req.amount < 1 ==> RecordPayment(db, req, recorder, now) == Err(AmountBelowMinimum)
    ensures RecordPayment(db, req, recorder, now) == Err(ExceedsTotal) ==>
      HasTicket(db.tickets, req.ticketId) && req.amount >= 1 && RequiredString(req.receiptNo, MaxString)
  {
    HasTicketFind(db.tickets, req.ticketId);
    RecordPaymentCases(db, req, recorder, now);
    if HasTicket(db.tickets, req.ticketId) {
      var k := FindTicket(db.tickets, req.ticketId).value;
      forall j | 0 <= j < |db.tickets| && db.tickets[j].id == req.ticketId ensures j == k {
      }
    }
  }

  /** What an accepted payment writes for the ticket in row `k`, stated without the
      transition: one recorded row with the requested values and a fresh id, the ticket
      marked paid once the new total reaches its total less the tolerance, nothing else
      changed, and the new total still within the tolerance above the ticket's total. */
  ghost predicate Writes(db: Db, k: nat, req: PaymentRequest, recorder: Option<nat>, now: Instant, db': Db)
  {
    && k < |db.tickets| && db.tickets[k].id == req.ticketId
    && var t := db.tickets[k];
    && var paid := RecordedSum(db.payments, t.id) + req.amount;
    && paid <= t.totalAmount + Tolerance
    && db'.payments == db.payments + [NewPayment(db, req, recorder, now)]
    && db'.tickets == (if paid >= t.totalAmount - Tolerance then db.tickets[k := t.(status := Paid)] else db.tickets)
    && db'.violators == db.violators && db'.catalog == db.catalog && db'.snapshots == db.snapshots
  }

  lemma SettleWrites(db: Db, k: nat, req: PaymentRequest, recorder: Option<nat>, now: Instant)
    requires k < |db.tickets| && db.tickets[k].id == req.ticketId
    ensures Settle(db, k, req, recorder, now).Ok? ==> Writes(db, k, req, recorder, now, Settle(db, k, req, recorder, now).value)
    ensures Settle(db, k, req, recorder, now).Err? ==> Settle(db, k, req, recorder, now) == Err(ExceedsTotal)
    ensures Settle(db, k, req, recorder, now).Ok? <==> RecordedSum(db.payments, req.ticketId) + req.amount <= db.tickets[k].totalAmount + Tolerance
  {
  }

  /** An accepted payment is one `Writes` describes, for the ticket's row. */
  lemma RecordPaymentWrites(db: Db, req: PaymentRequest, recorder: Option<nat>, now: Instant)
    requires RecordPayment(db, req, recorder, now).Ok?
    ensures FindTicket(db.tickets, req.ticketId).Some?
    ensures Writes(db, FindTicket(db.tickets, req.ticketId).value, req, recorder, now, RecordPayment(db, req, recorder, now).value)
    ensures CheckPayment(req).None?
  {
    RecordPaymentCases(db, req, recorder, now);
    SettleWrites(db, FindTicket(db.tickets, req.ticketId).value, req, recorder, now);
  }

  /** An accepted payment appends exactly one recorded row with the requested values and a
      fresh id; only the paid ticket's status may change, and nothing else does. */
  lemma RecordPaymentEffect(db: Db, req: PaymentRequest, recorder: Option<nat>, now: Instant)
    requires RecordPayment(db, req, recorder, now).Ok?
    ensures var db' := RecordPayment(db, req, recorder, now).value;
      && |db'.payments| == |db.payments| + 1
      && db'.payments[..|db.payments|] == db.payments
      && var p := db'.payments[|db.payments|];
      && p.ticketId == req.ticketId && p.amount == req.amount && p.receiptNo == Some(req.receiptNo)
      && p.remarks == req.remarks && p.recordedBy == recorder && p.status == Recorded && p.paidAt == Some(now)
      && (forall k :: 0 <= k < |db.payments| ==> db.payments[k].id < p.id)
      && db'.violators == db.violators && db'.catalog == db.catalog && db'.snapshots == db.snapshots
      && |db'.tickets| == |db.tickets|
      && (forall k :: 0 <= k < |db.tickets| ==> db'.tickets[k] == db.tickets[k].(status := db'.tickets[k].status))
      && (forall k :: 0 <= k < |db.tickets| && db'.tickets[k] != db.tickets[k] ==> db'.tickets[k].status == Paid)
  {
    var db' := RecordPayment(db, req, recorder, now).value;
    RecordPaymentWrites(db, req, recorder, now);
    assert db'.payments[..|db.payments|] == db.payments;
  }

  /** `unpaid -> paid`: the ticket is marked paid exactly when the new paid total reaches
      its total less the tolerance; below that its status is left as it was, cancelled
      tickets included. */
  lemma RecordPaymentStatus(db: Db, req: PaymentRequest, recorder: Option<nat>, now: Instant, k: nat)
    requires RecordPayment(db, req, recorder, now).Ok?
    requires k < |db.tickets| && FindTicket(db.tickets, req.ticketId) == Some(k)
    ensures var t := db.tickets[k];
      var t' := RecordPayment(db, req, recorder, now).value.tickets[k];
      && (RecordedSum(db.payments, t.id) + req.amount >= t.totalAmount - Tolerance ==> t'.status == Paid)
      && (RecordedSum(db.payments, t.id) + req.amount < t.totalAmount - Tolerance ==> t'.status == t.status)
  {
    RecordPaymentWrites(db, req, recorder, now);
  }

  /** Each accepted payment lowers the balance by its amount, down to zero. */
  lemma RecordPaymentOutstanding(db: Db, req: PaymentRequest, recorder: Option<nat>, now: Instant, k: nat)
    requires RecordPayment(db, req, recorder, now).Ok?
    requires k < |db.tickets| && FindTicket(db.tickets, req.ticketId) == Some(k)
    ensures var db' := RecordPayment(db, req, recorder, now).value;
      var before := Outstanding(db.payments, db.tickets[k]);
      Outstanding(db'.payments, db'.tickets[k]) == if before > req.amount then before - req.amount else 0
  {
    RecordPaymentWrites(db, req, recorder, now);
    RecordedSumSnoc(db.payments, NewPayment(db, req, recorder, now), req.ticketId);
  }

  /** Within unique ids, the row `FindTicket` returns is the only one with that id. */
  lemma FoundIsOnly(tickets: seq<Ticket>, id: nat, j: nat)
    requires forall a, b :: 0 <= a < b < |tickets| ==> tickets[a].id != tickets[b].id
    requires j < |tickets| && tickets[j].id == id
    ensures FindTicket(tickets, id) == Some(j)
  {
  }

  /** `b` is `a` with at most the statuses changed. */
  predicate StatusOnly(a: seq<Ticket>, b: seq<Ticket>)
  {
    |a| == |b| && forall j :: 0 <= j < |a| ==> b[j] == a[j].(status := b[j].status)
  }

  lemma StatusOnlyKeeps(a: seq<Ticket>, b: seq<Ticket>)
    requires StatusOnly(a, b)
    ensures forall id :: HasTicket(a, id) ==> HasTicket(b, id)
    ensures (forall i, j :: 0 <= i < j < |a| ==> a[i].id != a[j].id) ==> (forall i, j :: 0 <= i < j < |b| ==> b[i].id != b[j].id)
    ensures (forall i, j :: 0 <= i < j < |a| ==> a[i].controlNo != a[j].controlNo) ==> (forall i, j :: 0 <= i < j < |b| ==> b[i].controlNo != b[j].controlNo)
    ensures forall j :: 0 <= j < |a| ==> b[j].totalAmount == a[j].totalAmount && b[j].fineAmount == a[j].fineAmount && b[j].additionalFees == a[j].additionalFees
  {
    assert forall j :: 0 <= j < |a| ==> b[j].id == a[j].id && b[j].controlNo == a[j].controlNo;
    forall id | HasTicket(a, id) ensures HasTicket(b, id) {
      var j :| 0 <= j < |a| && a[j].id == id;
      assert b[j].id == id;
    }
  }

  lemma AppendFreshPayment(payments: seq<Payment>, p: Payment)
    requires forall i, j :: 0 <= i < j < |payments| ==> payments[i].id != payments[j].id
    requires forall k :: 0 <= k < |payments| ==> payments[k].id < p.id
    ensures forall i, j :: 0 <= i < j < |payments + [p]| ==> (payments + [p])[i].id != (payments + [p])[j].id
  {
  }

  lemma WritesStatusOnly(db: Db, k: nat, req: PaymentRequest, recorder: Option<nat>, now: Instant, db': Db)
    requires Writes(db, k, req, recorder, now, db')
    ensures StatusOnly(db.tickets, db'.tickets)
  {
  }

  lemma WritesKeys(db: Db, k: nat, req: PaymentRequest, recorder: Option<nat>, now: Instant, db': Db)
    requires KeysUnique(db) && References(db)
    requires Writes(db, k, req, recorder, now, db')
    ensures KeysUnique(db') && References(db')
  {
    var p := NewPayment(db, req, recorder, now);
    WritesStatusOnly(db, k, req, recorder, now, db');
    StatusOnlyKeeps(db.tickets, db'.tickets);
    AppendFreshPayment(db.payments, p);
    assert HasTicket(db.tickets, p.ticketId);
    forall i | 0 <= i < |db'.payments| ensures HasTicket(db'.tickets, db'.payments[i].ticketId) {
      if i < |db.payments| {
        assert db'.payments[i] == db.payments[i];
      }
    }
  }

  lemma WritesAmounts(db: Db, k: nat, req: PaymentRequest, recorder: Option<nat>, now: Instant, db': Db)
    requires Amounts(db) && req.amount >= 1
    requires Writes(db, k, req, recorder, now, db')
    ensures Amounts(db')
  {
    WritesStatusOnly(db, k, req, recorder, now, db');
    StatusOnlyKeeps(db.tickets, db'.tickets);
  }

  lemma WritesSettled(db: Db, k: nat, req: PaymentRequest, recorder: Option<nat>, now: Instant, db': Db)
    requires KeysUnique(db) && Settled(db) && req.amount >= 1
    requires Writes(db, k, req, recorder, now, db')
    ensures Settled(db')
  {
    var p := NewPayment(db, req, recorder, now);
    forall j | 0 <= j < |db'.tickets|
      ensures RecordedSum(db'.payments, db'.tickets[j].id) <= db'.tickets[j].totalAmount + Tolerance
      ensures db'.tickets[j].status == Paid ==> RecordedSum(db'.payments, db'.tickets[j].id) >= db'.tickets[j].totalAmount - Tolerance
    {
      RecordedSumSnoc(db.payments, p, db.tickets[j].id);
      if j != k {
        assert db'.tickets[j] == db.tickets[j];
        assert db.tickets[j].id != req.ticketId;
      }
    }
  }

  /** The ledger's invariants, above all "never paid beyond the total by more than the
      tolerance", hold after every accepted settlement. */
  lemma SettleConsistent(db: Db, k: nat, req: PaymentRequest, recorder: Option<nat>, now: Instant)
    requires Consistent(db) && k < |db.tickets| && db.tickets[k].id == req.ticketId && req.amount >= 1
    ensures Settle(db, k, req, recorder, now).Ok? ==> Consistent(Settle(db, k, req, recorder, now).value)
  {
    SettleWrites(db, k, req, recorder, now);
    if Settle(db, k, req, recorder, now).Ok? {
      var db' := Settle(db, k, req, recorder, now).value;
      WritesKeys(db, k, req, recorder, now, db');
      WritesAmounts(db, k, req, recorder, now, db');
      WritesSettled(db, k, req, recorder, now, db');
    }
  }

  /** The ledger's invariants hold after every call of `store`. */
  lemma RecordPaymentConsistent(db: Db, req: PaymentRequest, recorder: Option<nat>, now: Instant)
    requires Consistent(db)
    ensures RecordPayment(db, req, recorder, now).Ok? ==> Consistent(RecordPayment(db, req, recorder, now).value)
  {
    RecordPaymentCases(db, req, recorder, now);
    if FindTicket(db.tickets, req.ticketId).Some? && CheckPayment(req).None? {
      SettleConsistent(db, FindTicket(db.tickets, req.ticketId).value, req, recorder, now);
    }
  }

  /** The ticket with a total of 800.00 and no payment yet. */
  function ScenarioTicket(): Ticket
  {
    Ticket(1, 1, 1, 1, 80000, 0, 80000, None, 0, "20251130-0001", Unpaid, 0)
  }

  function ScenarioPayment(id: nat, amount: Cents, receipt: string, at: Instant): Payment
  {
    Payment(id, 1, Some(7), amount, Some(receipt), Some(at), Recorded, None)
  }

  lemma ScenarioFirst()
    ensures RecordPayment(Db([], [], [ScenarioTicket()], [], []), PaymentRequest(1, 50000, "OR-1", None), Some(7), 100)
         == Ok(Db([], [], [ScenarioTicket()], [], [ScenarioPayment(1, 50000, "OR-1", 100)]))
  {
    assert Present("OR-1");
    RecordedSumSnoc([], ScenarioPayment(1, 50000, "OR-1", 100), 1);
  }

  lemma ScenarioSecond()
    ensures RecordPayment(Db([], [], [ScenarioTicket()], [], [ScenarioPayment(1, 50000, "OR-1", 100)]),
                          PaymentRequest(1, 30000, "OR-2", None), Some(7), 200)
         == Ok(Db([], [], [ScenarioTicket().(status := Paid)], [], [ScenarioPayment(1, 50000, "OR-1", 100), ScenarioPayment(2, 30000, "OR-2", 200)]))
  {
    assert Present("OR-2");
    var p1 := ScenarioPayment(1, 50000, "OR-1", 100);
    var db1 := Db([], [], [ScenarioTicket()], [], [p1]);
    RecordedSumSnoc([], p1, 1);
    assert [p1] == [] + [p1];
    assert RecordedSum([p1], 1) == 50000;
    assert NextId([p1], PaymentId) == 2;
    assert FindTicket(db1.tickets, 1) == Some(0);
    assert NewPayment(db1, PaymentRequest(1, 30000, "OR-2", None), Some(7), 200) == ScenarioPayment(2, 30000, "OR-2", 200);
    assert db1.tickets[0 := ScenarioTicket().(status := Paid)] == [ScenarioTicket().(status := Paid)];
    assert db1.payments + [ScenarioPayment(2, 30000, "OR-2", 200)] == [p1, ScenarioPayment(2, 30000, "OR-2", 200)];
  }

  lemma ScenarioThird()
    ensures RecordPayment(Db([], [], [ScenarioTicket().(status := Paid)], [], [ScenarioPayment(1, 50000, "OR-1", 100), ScenarioPayment(2, 30000, "OR-2", 200)]),
                          PaymentRequest(1, 5000, "OR-3", None), Some(7), 300)
         == Err(ExceedsTotal)
  {
    assert Present("OR-3");
    var p1 := ScenarioPayment(1, 50000, "OR-1", 100);
    var p2 := ScenarioPayment(2, 30000, "OR-2", 200);
    var db2 := Db([], [], [ScenarioTicket().(status := Paid)], [], [p1, p2]);
    RecordedSumSnoc([], p1, 1);
    RecordedSumSnoc([p1], p2, 1);
    assert [p1] == [] + [p1] && [p1, p2] == [p1] + [p2];
    assert RecordedSum([p1, p2], 1) == 80000;
    assert FindTicket(db2.tickets, 1) == Some(0);
  }

  /** With a total of 800.00: paying 500.00 leaves 300.00 outstanding and the ticket
      unpaid; paying 300.00 marks it paid with nothing outstanding; a further 50.00 is
      refused. */
  lemma SettlementScenario()
    ensures var db0 := Db([], [], [ScenarioTicket()], [], []);
      var r1 := RecordPayment(db0, PaymentRequest(1, 50000, "OR-1", None), Some(7), 100);
      && r1.Ok?
      && Outstanding(r1.value.payments, r1.value.tickets[0]) == 30000 && r1.value.tickets[0].status == Unpaid
      && var r2 := RecordPayment(r1.value, PaymentRequest(1, 30000, "OR-2", None), Some(7), 200);
      && r2.Ok?
      && Outstanding(r2.value.payments, r2.value.tickets[0]) == 0 && r2.value.tickets[0].status == Paid
      && RecordPayment(r2.value, PaymentRequest(1, 5000, "OR-3", None), Some(7), 300) == Err(ExceedsTotal)
  {
    ScenarioFirst();
    ScenarioSecond();
    ScenarioThird();
    var p1 := ScenarioPayment(1, 50000, "OR-1", 100);
    var p2 := ScenarioPayment(2, 30000, "OR-2", 200);
    RecordedSumSnoc([], p1, 1);
    RecordedSumSnoc([p1], p2, 1);
    assert [p1] == [] + [p1] && [p1, p2] == [p1] + [p2];
  }

  // ---------------------------------------------------------------- recentUnpaid

  const RecentLimit: nat := 50

  predicate IsUnpaid(t: Ticket) { t.status == Unpaid }

  /** `orderByDesc('created_at')` */
  predicate CreatedDescLe(a: Ticket, b: Ticket) { a.createdAt >= b.createdAt }

  lemma CreatedDescPreorder(s: seq<Ticket>)
    ensures TotalPreorderOn(s, CreatedDescLe)
  {
  }

  /** `recentUnpaid` */
  function RecentUnpaid(tickets: seq<Ticket>): seq<Ticket>
  {
    Take(SortBy(Filter(tickets, IsUnpaid), CreatedDescLe), RecentLimit)
  }

  /** An element of a sorted sequence that is not in a prefix comes after all of it. */
  lemma SortedPrefixBefore<T>(s: seq<T>, le: (T, T) -> bool, n: nat, x: T)
    requires SortedBy(s, le) && x in s && x !in Take(s, n)
    ensures |s| > n && |Take(s, n)| == n
    ensures forall i :: 0 <= i < n ==> le(s[i], x)
  {
    var j :| 0 <= j < |s| && s[j] == x;
    assert j >= n;
  }

  /** At most 50 unpaid tickets of the ledger, each listed no more often than it is stored,
      newest first; an unpaid ticket is left out only when 50 tickets at least as new are
      listed. */
  lemma RecentUnpaidSpec(tickets: seq<Ticket>)
    ensures var r := RecentUnpaid(tickets);
      && |r| <= RecentLimit
      && (forall i :: 0 <= i < |r| ==> r[i] in tickets && r[i].status == Unpaid)
      && multiset(r) <= multiset(Filter(tickets, IsUnpaid))
      && SortedBy(r, CreatedDescLe)
      && (forall k :: 0 <= k < |tickets| && tickets[k].status == Unpaid && tickets[k] !in r ==>
            |r| == RecentLimit && forall i :: 0 <= i < |r| ==> r[i].createdAt >= tickets[k].createdAt)
  {
    var f := Filter(tickets, IsUnpaid);
    var s := SortBy(f, CreatedDescLe);
    var r := RecentUnpaid(tickets);
    assert r == Take(s, RecentLimit);
    CreatedDescPreorder(f);
    SortBySorted(f, CreatedDescLe);
    TakeSubMultiset(s, RecentLimit);
    forall i | 0 <= i < |r| ensures r[i] in tickets && r[i].status == Unpaid {
      assert r[i] == s[i];
      assert s[i] in multiset(f);
    }
    forall k | 0 <= k < |tickets| && tickets[k].status == Unpaid && tickets[k] !in r
      ensures |r| == RecentLimit && forall i :: 0 <= i < |r| ==> r[i].createdAt >= tickets[k].createdAt
    {
      assert tickets[k] in f;
      assert tickets[k] in multiset(s);
      SortedPrefixBefore(s, CreatedDescLe, RecentLimit, tickets[k]);
    }
  }
}
