/** The ledger as the database the controllers change in place: one field per table.
    Every state-changing method runs the same steps as its controller action, in the
    same order, inside one transaction (a refused step restores every table), and
    promises the new state that the matching pure transition computes; `Valid()` is the
    ledger invariant `Records.Consistent`, kept by every method. */
module LedgerStore {
  import opened Wrappers
  import opened Seqs
  import opened Records
  import opened Validation
  import Settlement
  import Catalog
  import ViolationSeeder
  import Issuance

  /** The catalog keeps its ids unique and its fines non-negative. */
  ghost predicate CatalogSound(c: seq<Violation>)
  {
    && (forall i, j :: 0 <= i < j < |c| ==> c[i].id != c[j].id)
    && (forall k :: 0 <= k < |c| ==> c[k].fine >= 0)
  }

  /** Replacing a sound catalog keeps the ledger consistent: no other invariant reads it. */
  lemma CatalogSwapConsistent(db: Db, c: seq<Violation>)
    requires Consistent(db) && CatalogSound(c)
    ensures Consistent(db.(catalog := c))
  {
  }

  lemma CreateViolationSound(c: seq<Violation>, inp: Catalog.ViolationInput)
    requires CatalogSound(c) && Catalog.CreateViolation(c, inp).Ok?
    ensures CatalogSound(Catalog.CreateViolation(c, inp).value)
  {
    Catalog.CreateViolationSpec(c, inp);
    var c' := Catalog.CreateViolation(c, inp).value;
    assert forall k :: 0 <= k < |c| ==> c'[k] == c[k];
  }

  lemma UpdateViolationSound(c: seq<Violation>, id: nat, inp: Catalog.ViolationInput)
    requires CatalogSound(c) && Catalog.UpdateViolation(c, id, inp).Ok?
    ensures CatalogSound(Catalog.UpdateViolation(c, id, inp).value)
  {
    Catalog.UpdateViolationSpec(c, id, inp);
    Catalog.UpdateViolationKeepsIds(c, id, inp);
    Catalog.CheckInputSpec(inp);
  }

  lemma UpsertRowSound(c: seq<Violation>, row: ViolationSeeder.SeedRow)
    requires CatalogSound(c) && row.fine >= 0
    ensures CatalogSound(ViolationSeeder.UpsertRow(c, row))
  {
    ViolationSeeder.UpsertRowSpec(c, row);
    var c' := ViolationSeeder.UpsertRow(c, row);
    if ViolationSeeder.KeyIndex(c, row.kind, row.name).None? {
      assert forall k :: 0 <= k < |c| ==> c'[k] == c[k];
    }
  }

  class Store {
    var violators: seq<Violator>
    var catalog: seq<Violation>
    var tickets: seq<Ticket>
    var snapshots: seq<TicketViolation>
    var payments: seq<Payment>

    /** The tables as one value. */
    function Db(): Db
      reads this
    {
      Records.Db(violators, catalog, tickets, snapshots, payments)
    }

    ghost predicate Valid()
      reads this
    {
      Consistent(Db())
    }

    /** A freshly migrated, empty database. */
    constructor ()
      ensures Db() == Records.Db([], [], [], [], []) && Valid()
    {
      violators := [];
      catalog := [];
      tickets := [];
      snapshots := [];
      payments := [];
    }

    /** `ClerkPaymentController::store`: validate, lock and read the ticket, read its
        recorded total, refuse an overpayment, insert the payment, and mark the ticket
        paid once the total is reached. `err` is the refusal, if any. */
    method RecordPayment(req: Settlement.PaymentRequest, recorder: Option<nat>, now: Instant) returns (err: Option<Settlement.PaymentError>)
      requires Valid()
      modifies this
      ensures Valid()
      ensures err.None? <==> Settlement.RecordPayment(old(Db()), req, recorder, now).Ok?
      ensures err.None? ==> Db() == Settlement.RecordPayment(old(Db()), req, recorder, now).value
      ensures err.Some? ==> Db() == old(Db()) && Settlement.RecordPayment(old(Db()), req, recorder, now) == Err(err.value)
    {
      Settlement.RecordPaymentCases(Db(), req, recorder, now);
      var found := FindTicket(tickets, req.ticketId);
      if found.None? {
        return Some(Settlement.UnknownTicket);
      }
      if req.amount < 1 {
        return Some(Settlement.AmountBelowMinimum);
      }
      if !RequiredString(req.receiptNo, MaxString) {
        return Some(Settlement.ReceiptNoInvalid);
      }
      if !NullableString(req.remarks, MaxString) {
        return Some(Settlement.RemarksTooLong);
      }
      err := SettlePayment(found.value, req, recorder, now);
    }

    /** The locked part of `ClerkPaymentController::store` for a validated request and
        its ticket's row `k`: the overpayment guard, the insert and the status update. */
    method SettlePayment(k: nat, req: Settlement.PaymentRequest, recorder: Option<nat>, now: Instant) returns (err: Option<Settlement.PaymentError>)
      requires Valid() && k < |tickets| && tickets[k].id == req.ticketId && req.amount >= 1
      modifies this
      ensures Valid()
      ensures err.None? <==> Settlement.Settle(old(Db()), k, req, recorder, now).Ok?
      ensures err.None? ==> Db() == Settlement.Settle(old(Db()), k, req, recorder, now).value
      ensures err.Some? ==> Db() == old(Db()) && Settlement.Settle(old(Db()), k, req, recorder, now) == Err(err.value)
    {
      Settlement.SettleConsistent(Db(), k, req, recorder, now);
      var ticket := tickets[k];
      var alreadyPaid := RecordedSum(payments, ticket.id);
      var newTotalPaid := alreadyPaid + req.amount;
      if newTotalPaid > ticket.totalAmount + Tolerance {
        return Some(Settlement.ExceedsTotal);
      }
      var payment := Settlement.NewPayment(Db(), req, recorder, now);
      payments := payments + [payment];
      if newTotalPaid >= ticket.totalAmount - Tolerance {
        tickets := tickets[k := ticket.(status := Paid)];
      }
      err := None;
    }

    /** The pivot `foreach` of `TicketController::store`: inserts the items in order
        and stops at the first pair the unique index refuses, returning its violation id
        (the caller then rolls the transaction back). */
    method InsertPivots(items: seq<TicketViolation>) returns (refused: Option<nat>)
      modifies this
      ensures violators == old(violators) && catalog == old(catalog) && tickets == old(tickets) && payments == old(payments)
      ensures refused.None? <==> Issuance.InsertSnapshots(old(snapshots), items).Ok?
      ensures refused.None? ==> Issuance.InsertSnapshots(old(snapshots), items) == Ok(snapshots)
      ensures refused.Some? ==> Issuance.InsertSnapshots(old(snapshots), items) == Err(Issuance.DuplicateViolation(refused.value))
    {
      var i := 0;
      while i < |items|
        invariant 0 <= i <= |items|
        invariant violators == old(violators) && catalog == old(catalog) && tickets == old(tickets) && payments == old(payments)
        invariant Issuance.InsertSnapshots(snapshots, items[i..]) == Issuance.InsertSnapshots(old(snapshots), items)
      {
        assert items[i..][1..] == items[i + 1..];
        if Issuance.PairTaken(snapshots, items[i]) {
          return Some(items[i].violationId);
        }
        snapshots := snapshots + [items[i]];
        i := i + 1;
      }
      assert items[i..] == [];
      refused := None;
    }

    /** `TicketController::store`: validate, then run the transaction. */
    method IssueTicket(req: Issuance.IssueRequest, enforcerId: nat, now: Instant, today: Date) returns (r: Result<Ticket, Issuance.IssueError>)
      requires Valid()
      modifies this
      ensures Valid()
      ensures r.Ok? <==> Issuance.Issue(old(Db()), req, enforcerId, now, today).Ok?
      ensures r.Ok? ==> Issuance.Issue(old(Db()), req, enforcerId, now, today).value == Issuance.Issued(Db(), r.value)
      ensures r.Err? ==> Db() == old(Db()) && Issuance.Issue(old(Db()), req, enforcerId, now, today) == Err(r.error)
    {
      Issuance.IssueCases(Db(), req, enforcerId, now, today);
      var check := Issuance.CheckRequest(catalog, req);
      if check.Some? {
        return Err(check.value);
      }
      ghost var saved := Db();
      r := IssueTransaction(req, enforcerId, now, today);
      if r.Ok? {
        Issuance.IssueConsistent(saved, req, enforcerId, now, today, Issuance.Issued(Db(), r.value));
      }
    }

    /** The transaction of `TicketController::store`: upsert the violator, create the
        ticket (its `creating` hook draws the control number), then insert one pivot row
        per selection; a refused step rolls every table back. */
    method IssueTransaction(req: Issuance.IssueRequest, enforcerId: nat, now: Instant, today: Date) returns (r: Result<Ticket, Issuance.IssueError>)
      requires Valid() && |req.violations| >= 1
      modifies this
      ensures r.Ok? <==> Issuance.Transaction(old(Db()), req, enforcerId, now, today).Ok?
      ensures r.Ok? ==> Issuance.Transaction(old(Db()), req, enforcerId, now, today).value == Issuance.Issued(Db(), r.value)
      ensures r.Err? ==> Db() == old(Db()) && Issuance.Transaction(old(Db()), req, enforcerId, now, today) == Err(r.error)
    {
      var saved := Db();
      Issuance.TransactionCases(saved, req, enforcerId, now, today);
      var up := Issuance.UpsertViolator(violators, req);
      violators := up.0;
      var ticket := Issuance.NewTicket(saved, req, up.1, enforcerId, now, today);
      if ticket.controlNo in Issuance.ControlNos(tickets) {
        violators := saved.violators;
        assert Db() == saved;
        return Err(Issuance.ControlNoTaken);
      }
      tickets := tickets + [ticket];
      var refused := InsertPivots(Issuance.Items(catalog, req.violations, ticket.id));
      if refused.Some? {
        violators, tickets, snapshots := saved.violators, saved.tickets, saved.snapshots;
        assert Db() == saved;
        return Err(Issuance.DuplicateViolation(refused.value));
      }
      r := Ok(ticket);
    }

    /** `ViolationController::store` */
    method CreateViolation(inp: Catalog.ViolationInput) returns (err: Option<Catalog.CatalogError>)
      requires Valid()
      modifies this
      ensures Valid()
      ensures err.None? <==> Catalog.CreateViolation(old(catalog), inp).Ok?
      ensures err.None? ==> Db() == old(Db()).(catalog := Catalog.CreateViolation(old(catalog), inp).value)
      ensures err.Some? ==> Db() == old(Db()) && Catalog.CreateViolation(old(catalog), inp) == Err(err.value)
    {
      var res := Catalog.CreateViolation(catalog, inp);
      if res.Err? {
        return Some(res.error);
      }
      CreateViolationSound(catalog, inp);
      ReplaceCatalog(res.value);
      err := None;
    }

    /** `ViolationController::update` */
    method UpdateViolation(id: nat, inp: Catalog.ViolationInput) returns (err: Option<Catalog.CatalogError>)
      requires Valid()
      modifies this
      ensures Valid()
      ensures err.None? <==> Catalog.UpdateViolation(old(catalog), id, inp).Ok?
      ensures err.None? ==> Db() == old(Db()).(catalog := Catalog.UpdateViolation(old(catalog), id, inp).value)
      ensures err.Some? ==> Db() == old(Db()) && Catalog.UpdateViolation(old(catalog), id, inp) == Err(err.value)
    {
      var res := Catalog.UpdateViolation(catalog, id, inp);
      if res.Err? {
        return Some(res.error);
      }
      UpdateViolationSound(catalog, id, inp);
      ReplaceCatalog(res.value);
      err := None;
    }

    /** Helper of `CreateViolation` and `UpdateViolation`: writes a sound catalog table;
        the other tables are left as they are. */
    method ReplaceCatalog(c: seq<Violation>)
      requires Valid() && CatalogSound(c)
      modifies this
      ensures Valid() && Db() == old(Db()).(catalog := c)
    {
      CatalogSwapConsistent(Db(), c);
      catalog := c;
    }

    /** `ViolationSeeder::run`: the keyed upserts of the fixture. */
    method SeedCatalog()
      requires Valid()
      modifies this
      ensures Valid()
      ensures Db() == old(Db()).(catalog := ViolationSeeder.SeedAll(old(catalog), ViolationSeeder.Fixture()))
    {
      ViolationSeeder.FixtureFinesPositive();
      SeedRows(ViolationSeeder.Fixture());
    }

    /** The `foreach` of `ViolationSeeder::run` over its rows. */
    method SeedRows(rows: seq<ViolationSeeder.SeedRow>)
      requires Valid() && ViolationSeeder.FinesPositive(rows)
      modifies this
      ensures Valid()
      ensures Db() == old(Db()).(catalog := ViolationSeeder.SeedAll(old(catalog), rows))
    {
      var i := 0;
      while i < |rows|
        invariant 0 <= i <= |rows|
        invariant Db() == old(Db()).(catalog := catalog)
        invariant CatalogSound(catalog)
        invariant ViolationSeeder.SeedAll(catalog, rows[i..]) == ViolationSeeder.SeedAll(old(catalog), rows)
      {
        assert rows[i..][1..] == rows[i + 1..];
        UpsertRowSound(catalog, rows[i]);
        catalog := ViolationSeeder.UpsertRow(catalog, rows[i]);
        i := i + 1;
      }
      assert rows[i..] == [];
      CatalogSwapConsistent(old(Db()), catalog);
    }
  }
}
