/** The rows of the citation ledger, as the migrations and the models' `$fillable`
    lists define them. Money is in integer cents (decimal(10,2) columns); time is
    in whole seconds. */
module Records {
  import opened Wrappers
  import opened Seqs

  type Cents = int
  type Instant = int

  const SecondsPerDay: int := 86400

  /** The tolerance of the settlement comparisons: 0.01 of the currency. */
  const Tolerance: Cents := 1

  /** The calendar day (number since 1970-01-01) of an instant. */
  function DayOf(t: Instant): int
  {
    t / SecondsPerDay
  }

  datatype Date = Date(year: nat, month: nat, day: nat)

  predicate ValidDate(d: Date)
  {
    d.year <= 9999 && 1 <= d.month <= 12 && 1 <= d.day <= 31
  }

  /** Days from 1970-01-01 to a proleptic Gregorian date. */
  function DaysFromCivil(d: Date): int
  {
    var y: int := if d.month <= 2 then d.year - 1 else d.year;
    var era := y / 400;
    var yoe := y - era * 400;
    var mp := if d.month > 2 then d.month - 3 else d.month + 9;
    var doy := (153 * mp + 2) / 5 + d.day - 1;
    var doe := yoe * 365 + yoe / 4 - yoe / 100 + doy;
    era * 146097 + doe - 719468
  }

  // ---------------------------------------------------------------- catalog

  /** A row of `violations`; `kind` is the `type` column. */
  datatype Violation = Violation(id: nat, kind: string, name: string, fine: Cents, ordinanceNo: Option<string>)

  // ---------------------------------------------------------------- violators

  /** A row of `violators` as `Violator::$fillable` writes it: age and sex are not fillable. */
  datatype Violator = Violator(
    id: nat,
    name: string,
    address: Option<string>,
    driversLicense: string,
    plateNo: Option<string>,
    kdNo: Option<string>)

  // ---------------------------------------------------------------- tickets

  datatype TicketStatus = Unpaid | Paid | Cancelled

  /** A row of `tickets` as `Ticket::$fillable` writes it (no compliance_date). */
  datatype Ticket = Ticket(
    id: nat,
    violatorId: nat,
    enforcerId: nat,
    violationId: nat,
    fineAmount: Cents,
    additionalFees: Cents,
    totalAmount: Cents,
    placeOfApprehension: Option<string>,
    apprehendedAt: Instant,
    controlNo: string,
    status: TicketStatus,
    createdAt: Instant)

  /** A row of `ticket_violation`: the fine snapshot taken at issuance. */
  datatype TicketViolation = TicketViolation(ticketId: nat, violationId: nat, fineAmount: Cents, remarks: Option<string>)

  // ---------------------------------------------------------------- payments

  datatype PaymentStatus = Recorded | Reversed

  /** A row of `payments`. */
  datatype Payment = Payment(
    id: nat,
    ticketId: nat,
    recordedBy: Option<nat>,
    amount: Cents,
    receiptNo: Option<string>,
    paidAt: Option<Instant>,
    status: PaymentStatus,
    remarks: Option<string>)

  // ---------------------------------------------------------------- users

  /** The columns of `users` the ledger's projections read. */
  datatype User = User(
    id: nat,
    fullName: Option<string>,
    email: string,
    passwordHash: string,
    enforcerNo: Option<string>,
    roleId: Option<nat>)

  // ---------------------------------------------------------------- the ledger

  datatype Db = Db(
    violators: seq<Violator>,
    catalog: seq<Violation>,
    tickets: seq<Ticket>,
    snapshots: seq<TicketViolation>,
    payments: seq<Payment>)

  // ---------------------------------------------------------------- lookups by key

  function FindTicket(tickets: seq<Ticket>, id: nat): (r: Option<nat>)
    ensures r.Some? ==> r.value < |tickets| && tickets[r.value].id == id
    ensures r.None? <==> forall k :: 0 <= k < |tickets| ==> tickets[k].id != id
  {
    IndexWhere(tickets, (t: Ticket) => t.id == id)
  }

  function FindViolation(catalog: seq<Violation>, id: nat): (r: Option<nat>)
    ensures r.Some? ==> r.value < |catalog| && catalog[r.value].id == id
    ensures r.None? <==> forall k :: 0 <= k < |catalog| ==> catalog[k].id != id
  {
    IndexWhere(catalog, (v: Violation) => v.id == id)
  }

  function FindViolator(violators: seq<Violator>, id: nat): (r: Option<nat>)
    ensures r.Some? ==> r.value < |violators| && violators[r.value].id == id
    ensures r.None? <==> forall k :: 0 <= k < |violators| ==> violators[k].id != id
  {
    IndexWhere(violators, (v: Violator) => v.id == id)
  }

  function FindUser(users: seq<User>, id: nat): (r: Option<nat>)
    ensures r.Some? ==> r.value < |users| && users[r.value].id == id
    ensures r.None? <==> forall k :: 0 <= k < |users| ==> users[k].id != id
  {
    IndexWhere(users, (u: User) => u.id == id)
  }

  /** The `violator` relation: the first violator with the ticket's `violator_id`. */
  function ViolatorOf(db: Db, t: Ticket): (r: Option<Violator>)
    ensures r.Some? ==> r.value in db.violators && r.value.id == t.violatorId
    ensures r.None? <==> forall j :: 0 <= j < |db.violators| ==> db.violators[j].id != t.violatorId
  {
    match FindViolator(db.violators, t.violatorId)
    case None => None
    case Some(k) => Some(db.violators[k])
  }

  // ---------------------------------------------------------------- the paid balance

  predicate CountsToward(p: Payment, ticketId: nat)
  {
    p.ticketId == ticketId && p.status == Recorded
  }

  /** `payments()->where('status', 'recorded')->sum('amount')` for one ticket. */
  function RecordedSum(payments: seq<Payment>, ticketId: nat): Cents
  {
    if payments == [] then 0
    else
      var last := payments[|payments| - 1];
      RecordedSum(payments[..|payments| - 1], ticketId) + (if CountsToward(last, ticketId) then last.amount else 0)
  }

  lemma RecordedSumSnoc(payments: seq<Payment>, p: Payment, ticketId: nat)
    ensures RecordedSum(payments + [p], ticketId)
         == RecordedSum(payments, ticketId) + (if CountsToward(p, ticketId) then p.amount else 0)
  {
    assert (payments + [p])[..|payments|] == payments;
  }

  /** Payments for other tickets, and reversed payments, never change a ticket's balance. */
  lemma {:induction false} RecordedSumIgnores(payments: seq<Payment>, extra: seq<Payment>, ticketId: nat)
    requires forall k :: 0 <= k < |extra| ==> !CountsToward(extra[k], ticketId)
    ensures RecordedSum(payments + extra, ticketId) == RecordedSum(payments, ticketId)
  {
    if extra == [] {
      assert payments + extra == payments;
    } else {
      var init := extra[..|extra| - 1];
      assert payments + extra == (payments + init) + [extra[|extra| - 1]];
      RecordedSumSnoc(payments + init, extra[|extra| - 1], ticketId);
      RecordedSumIgnores(payments, init, ticketId);
    }
  }

  lemma {:induction false} RecordedSumNonNegative(payments: seq<Payment>, ticketId: nat)
    requires forall k :: 0 <= k < |payments| ==> payments[k].amount >= 0
    ensures RecordedSum(payments, ticketId) >= 0
  {
    if payments != [] {
      RecordedSumNonNegative(payments[..|payments| - 1], ticketId);
    }
  }

  /** A payment or snapshot row names an existing ticket. */
  predicate HasTicket(tickets: seq<Ticket>, id: nat)
  {
    exists k :: 0 <= k < |tickets| && tickets[k].id == id
  }

  lemma HasTicketFind(tickets: seq<Ticket>, id: nat)
    ensures HasTicket(tickets, id) <==> FindTicket(tickets, id).Some?
  {
    if FindTicket(tickets, id).Some? {
      assert tickets[FindTicket(tickets, id).value].id == id;
    }
  }

  // ---------------------------------------------------------------- ledger invariants

  /** Primary keys, the unique control_no and the unique (ticket_id, violation_id). */
  ghost predicate KeysUnique(db: Db)
  {
    && (forall i, j :: 0 <= i < j < |db.tickets| ==> db.tickets[i].id != db.tickets[j].id)
    && (forall i, j :: 0 <= i < j < |db.payments| ==> db.payments[i].id != db.payments[j].id)
    && (forall i, j :: 0 <= i < j < |db.violators| ==> db.violators[i].id != db.violators[j].id)
    && (forall i, j :: 0 <= i < j < |db.catalog| ==> db.catalog[i].id != db.catalog[j].id)
    && (forall i, j :: 0 <= i < j < |db.tickets| ==> db.tickets[i].controlNo != db.tickets[j].controlNo)
    && (forall i, j :: 0 <= i < j < |db.snapshots| ==>
          db.snapshots[i].ticketId != db.snapshots[j].ticketId || db.snapshots[i].violationId != db.snapshots[j].violationId)
  }

  /** Payments and snapshot rows reference existing tickets (the foreign keys). */
  ghost predicate References(db: Db)
  {
    && (forall k :: 0 <= k < |db.payments| ==> HasTicket(db.tickets, db.payments[k].ticketId))
    && (forall k :: 0 <= k < |db.snapshots| ==> HasTicket(db.tickets, db.snapshots[k].ticketId))
  }

  /** One violator per licence, as the keyed upsert keeps it. */
  ghost predicate LicencesUnique(db: Db)
  {
    forall i, j :: 0 <= i < j < |db.violators| ==> db.violators[i].driversLicense != db.violators[j].driversLicense
  }

  /** Payment amounts are at least one cent; catalog fines are not negative; a ticket's
      total is its fine plus its fees. */
  ghost predicate Amounts(db: Db)
  {
    && (forall k :: 0 <= k < |db.payments| ==> db.payments[k].amount >= 1)
    && (forall k :: 0 <= k < |db.catalog| ==> db.catalog[k].fine >= 0)
    && (forall k :: 0 <= k < |db.tickets| ==> db.tickets[k].totalAmount == db.tickets[k].fineAmount + db.tickets[k].additionalFees)
  }

  /** The settlement invariant: no ticket is paid beyond its total by more than the
      tolerance, and a ticket marked paid has reached its total within the tolerance. */
  ghost predicate Settled(db: Db)
  {
    && (forall k :: 0 <= k < |db.tickets| ==> RecordedSum(db.payments, db.tickets[k].id) <= db.tickets[k].totalAmount + Tolerance)
    && (forall k :: 0 <= k < |db.tickets| && db.tickets[k].status == Paid ==>
          RecordedSum(db.payments, db.tickets[k].id) >= db.tickets[k].totalAmount - Tolerance)
  }

  /** What the schema's keys and the core's own logic keep true of the ledger. */
  ghost predicate Consistent(db: Db)
  {
    KeysUnique(db) && References(db) && LicencesUnique(db) && Amounts(db) && Settled(db)
  }

  lemma EmptyConsistent()
    ensures Consistent(Db([], [], [], [], []))
  {
  }

  /** A ticket no payment names has a paid balance of zero. */
  lemma {:induction false} RecordedSumUnreferenced(payments: seq<Payment>, ticketId: nat)
    requires forall k :: 0 <= k < |payments| ==> payments[k].ticketId != ticketId
    ensures RecordedSum(payments, ticketId) == 0
  {
    if payments != [] {
      RecordedSumUnreferenced(payments[..|payments| - 1], ticketId);
    }
  }
}
