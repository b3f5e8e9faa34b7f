/** The two print views of a ticket: `TicketPrintController::show` (the printed total of
    the linked violations and whether there are several) and `TicketPrintApiController::show`
    (the citation record the mobile printer reads). Both read a ticket whose relations are
    already loaded; the `violations` relation is also derived from the ledger, so the
    printed total can be related to what issuance wrote and to later catalog edits. */
module Printing {
  import opened Wrappers
  import opened Seqs
  import opened Records
  import Issuance
  import Catalog

  // ---------------------------------------------------------------- the loaded relations

  /** A violation reached through `ticket_violation`: the catalog columns, with the pivot's
      fine snapshot when the pivot carries one. */
  datatype Linked = Linked(violationId: nat, name: string, ordinanceNo: Option<string>, fine: Cents, pivotFine: Option<Cents>)

  /** A ticket with its `violator`, `enforcer`, `violations` and `latestPayment` loaded. */
  datatype LoadedTicket = LoadedTicket(
    ticket: Ticket,
    violator: Option<Violator>,
    enforcer: Option<User>,
    violations: seq<Linked>,
    latestPayment: Option<Payment>)

  /** `$v->pivot->fine_amount ?? $v->fine` */
  function LineFine(v: Linked): Cents
  {
    match v.pivotFine
    case Some(f) => f
    case None => v.fine
  }

  /** `$ticket->violations->sum(...)` */
  function TotalViolationFine(vs: seq<Linked>): Cents
  {
    SumOf(vs, LineFine)
  }

  // ---------------------------------------------------------------- TicketPrintController

  datatype PrintView = PrintView(ticket: Ticket, totalViolationFine: Cents, hasMultiple: bool)

  /** `TicketPrintController::show` */
  function PrintShow(lt: LoadedTicket): (v: PrintView)
    ensures v.ticket == lt.ticket
    ensures v.hasMultiple <==> |lt.violations| > 1
    ensures lt.violations == [] ==> v.totalViolationFine == 0
  {
    PrintView(lt.ticket, TotalViolationFine(lt.violations), |lt.violations| > 1)
  }

  /** When every pivot carries its snapshot the catalog fines play no part: two lists with
      the same snapshots print the same total, whatever their catalog fines. */
  lemma {:induction false} TotalUsesSnapshots(vs: seq<Linked>, ws: seq<Linked>)
    requires |vs| == |ws|
    requires forall i :: 0 <= i < |vs| ==> vs[i].pivotFine.Some? && vs[i].pivotFine == ws[i].pivotFine
    ensures TotalViolationFine(vs) == TotalViolationFine(ws)
  {
    if vs != [] {
      TotalUsesSnapshots(vs[1..], ws[1..]);
    }
  }

  /** A missing snapshot falls back to the catalog fine, line by line. */
  lemma {:induction false} TotalFallsBack(vs: seq<Linked>)
    requires forall i :: 0 <= i < |vs| ==> vs[i].pivotFine.None?
    ensures TotalViolationFine(vs) == SumOf(vs, (v: Linked) => v.fine)
  {
    if vs != [] {
      TotalFallsBack(vs[1..]);
    }
  }

  // ---------------------------------------------------------------- TicketPrintApiController

  /** One entry of the `violations` array. */
  datatype Entry = Entry(index: nat, name: string, ordinanceNo: Option<string>, fine: Cents)

  datatype ViolatorPart = ViolatorPart(name: Option<string>, address: Option<string>, driversLicense: Option<string>, plateNo: Option<string>, kdNo: Option<string>)

  datatype EnforcerPart = EnforcerPart(name: Option<string>, enforcerNo: Option<string>)

  datatype PaymentPart = PaymentPart(receiptNo: Option<string>, amount: Cents, paidAt: Option<Instant>)

  /** The JSON body of `show`; times stay instants (their formatting is not modelled). */
  datatype Citation = Citation(
    citationNo: string,
    status: TicketStatus,
    dateTime: Instant,
    place: Option<string>,
    violator: ViolatorPart,
    enforcer: EnforcerPart,
    violations: seq<Entry>,
    additionalFees: Cents,
    totalAmount: Cents,
    latestPayment: Option<PaymentPart>)

  /** `$ticket->violations->map(fn ($v, $idx) => ...)` from position `start` on. */
  function EntriesFrom(vs: seq<Linked>, start: nat): (r: seq<Entry>)
    ensures |r| == |vs|
    ensures forall i :: 0 <= i < |vs| ==>
      r[i] == Entry(start + i + 1, vs[i].name, vs[i].ordinanceNo, LineFine(vs[i]))
  {
    if vs == [] then []
    else [Entry(start + 1, vs[0].name, vs[0].ordinanceNo, LineFine(vs[0]))] + EntriesFrom(vs[1..], start + 1)
  }

  function Entries(vs: seq<Linked>): seq<Entry>
  {
    EntriesFrom(vs, 0)
  }

  function EntryFine(e: Entry): Cents { e.fine }

  /** The entries' fines add up to the printed total of the other view. */
  lemma {:induction false} EntriesTotal(vs: seq<Linked>, start: nat)
    ensures SumOf(EntriesFrom(vs, start), EntryFine) == TotalViolationFine(vs)
  {
    if vs != [] {
      var r := EntriesFrom(vs, start);
      assert r[1..] == EntriesFrom(vs[1..], start + 1);
      EntriesTotal(vs[1..], start + 1);
    }
  }

  function ViolatorPartOf(v: Option<Violator>): ViolatorPart
  {
    match v
    case None => ViolatorPart(None, None, None, None, None)
    case Some(x) => ViolatorPart(Some(x.name), x.address, Some(x.driversLicense), x.plateNo, x.kdNo)
  }

  function EnforcerPartOf(u: Option<User>): EnforcerPart
  {
    match u
    case None => EnforcerPart(None, None)
    case Some(x) => EnforcerPart(x.fullName, x.enforcerNo)
  }

  function PaymentPartOf(p: Option<Payment>): Option<PaymentPart>
  {
    match p
    case None => None
    case Some(x) => Some(PaymentPart(x.receiptNo, x.amount, x.paidAt))
  }

  /** `TicketPrintApiController::show` */
  function CitationOf(lt: LoadedTicket): Citation
  {
    var t := lt.ticket;
    Citation(t.controlNo, t.status, t.apprehendedAt, t.placeOfApprehension,
      ViolatorPartOf(lt.violator), EnforcerPartOf(lt.enforcer), Entries(lt.violations),
      t.additionalFees, t.totalAmount, PaymentPartOf(lt.latestPayment))
  }

  /** One entry per linked violation, numbered from 1 in order, each with the snapshot fine
      or else the catalog fine; the ticket's number, status and amounts are copied; the
      payment part is null exactly when there is no latest payment; the violator and
      enforcer parts are null when the record is missing. */
  lemma CitationSpec(lt: LoadedTicket)
    ensures var c := CitationOf(lt);
      && |c.violations| == |lt.violations|
      && (forall i :: 0 <= i < |lt.violations| ==>
            && c.violations[i].index == i + 1
            && c.violations[i].name == lt.violations[i].name
            && c.violations[i].ordinanceNo == lt.violations[i].ordinanceNo
            && (lt.violations[i].pivotFine.Some? ==> c.violations[i].fine == lt.violations[i].pivotFine.value)
            && (lt.violations[i].pivotFine.None? ==> c.violations[i].fine == lt.violations[i].fine))
      && c.citationNo == lt.ticket.controlNo && c.status == lt.ticket.status
      && c.additionalFees == lt.ticket.additionalFees && c.totalAmount == lt.ticket.totalAmount
      && (c.latestPayment.None? <==> lt.latestPayment.None?)
      && (lt.latestPayment.Some? ==>
            c.latestPayment.value == PaymentPart(lt.latestPayment.value.receiptNo, lt.latestPayment.value.amount, lt.latestPayment.value.paidAt))
      && (lt.violator.None? ==> c.violator == ViolatorPart(None, None, None, None, None))
      && (lt.violator.Some? ==> c.violator.name == Some(lt.violator.value.name) && c.violator.driversLicense == Some(lt.violator.value.driversLicense))
      && (lt.enforcer.None? ==> c.enforcer == EnforcerPart(None, None))
      && SumOf(c.violations, EntryFine) == PrintShow(lt).totalViolationFine
  {
    EntriesTotal(lt.violations, 0);
  }

  // ---------------------------------------------------------------- the relation from the ledger

  function PivotOf(ticketId: nat): TicketViolation -> bool
  {
    (s: TicketViolation) => s.ticketId == ticketId
  }

  /** The inner join of pivot rows with the catalog, in pivot order. */
  function Join(catalog: seq<Violation>, pivots: seq<TicketViolation>): seq<Linked>
  {
    if pivots == [] then []
    else
      var rest := Join(catalog, pivots[1..]);
      match FindViolation(catalog, pivots[0].violationId)
      case None => rest
      case Some(k) => [Linked(catalog[k].id, catalog[k].name, catalog[k].ordinanceNo, catalog[k].fine, Some(pivots[0].fineAmount))] + rest
  }

  /** `$ticket->violations` read from the ledger. */
  function LoadViolations(db: Db, ticketId: nat): seq<Linked>
  {
    Join(db.catalog, Filter(db.snapshots, PivotOf(ticketId)))
  }

  /** Joining the issuance's own items, whose violations are all in the catalog, gives one
      line per selection and the selections' fine. */
  lemma {:induction false} JoinItems(catalog: seq<Violation>, ids: seq<nat>, ticketId: nat)
    requires forall i :: 0 <= i < |ids| ==> Issuance.InCatalog(catalog, ids[i])
    ensures |Join(catalog, Issuance.Items(catalog, ids, ticketId))| == |ids|
    ensures TotalViolationFine(Join(catalog, Issuance.Items(catalog, ids, ticketId))) == Issuance.SelectionFine(catalog, ids)
    ensures forall i :: 0 <= i < |ids| ==> Join(catalog, Issuance.Items(catalog, ids, ticketId))[i].pivotFine.Some?
  {
    if ids != [] {
      var items := Issuance.Items(catalog, ids, ticketId);
      assert items[1..] == Issuance.Items(catalog, ids[1..], ticketId);
      assert Issuance.InCatalog(catalog, ids[0]);
      JoinItems(catalog, ids[1..], ticketId);
    }
  }

  /** For a ticket issued by `TicketController::store`, the printed total is the ticket's
      fine, and there is one printed line per selection. */
  lemma PrintedTotalOfIssued(db: Db, req: Issuance.IssueRequest, enforcerId: nat, now: Instant, today: Date,
                             r: Issuance.Issued, lt: LoadedTicket)
    requires References(db)
    requires Issuance.Issue(db, req, enforcerId, now, today) == Ok(r)
    requires lt.ticket == r.ticket && lt.violations == LoadViolations(r.db, r.ticket.id)
    ensures PrintShow(lt).totalViolationFine == r.ticket.fineAmount
    ensures |lt.violations| == |req.violations|
    ensures PrintShow(lt).hasMultiple <==> |req.violations| > 1
  {
    Issuance.IssueWrites(db, req, enforcerId, now, today, r);
    Issuance.IssueRefusesInvalid(db, req, enforcerId, now, today);
    Issuance.SnapshotsBeforeNext(db);
    var id := r.ticket.id;
    var items := Issuance.Items(db.catalog, req.violations, id);
    FilterAppend(db.snapshots, items, PivotOf(id));
    FilterNone(db.snapshots, PivotOf(id));
    FilterAll(items, PivotOf(id));
    assert Filter(r.db.snapshots, PivotOf(id)) == items;
    JoinItems(db.catalog, req.violations, id);
  }

  /** Two catalogs with the same ids at the same rows find every id at the same row. */
  lemma FindSameIds(c1: seq<Violation>, c2: seq<Violation>, id: nat)
    requires |c1| == |c2| && forall k :: 0 <= k < |c1| ==> c1[k].id == c2[k].id
    ensures FindViolation(c1, id) == FindViolation(c2, id)
  {
    var a, b := FindViolation(c1, id), FindViolation(c2, id);
    if a.Some? && b.Some? {
      assert c2[a.value].id == id && c1[b.value].id == id;
    }
  }

  lemma {:induction false} JoinKeepsSnapshots(c1: seq<Violation>, c2: seq<Violation>, pivots: seq<TicketViolation>)
    requires |c1| == |c2| && forall k :: 0 <= k < |c1| ==> c1[k].id == c2[k].id
    ensures |Join(c1, pivots)| == |Join(c2, pivots)|
    ensures forall i :: 0 <= i < |Join(c1, pivots)| ==>
      Join(c1, pivots)[i].pivotFine.Some? && Join(c1, pivots)[i].pivotFine == Join(c2, pivots)[i].pivotFine
  {
    if pivots != [] {
      FindSameIds(c1, c2, pivots[0].violationId);
      JoinKeepsSnapshots(c1, c2, pivots[1..]);
    }
  }

  /** Editing a catalog row (`ViolationController::update`) never changes the printed total
      of a ticket already issued: the lines print their snapshots. */
  lemma CatalogEditKeepsTotal(db: Db, id: nat, inp: Catalog.ViolationInput, ticketId: nat)
    requires Catalog.UpdateViolation(db.catalog, id, inp).Ok?
    ensures var db' := db.(catalog := Catalog.UpdateViolation(db.catalog, id, inp).value);
      TotalViolationFine(LoadViolations(db', ticketId)) == TotalViolationFine(LoadViolations(db, ticketId))
  {
    var c := Catalog.UpdateViolation(db.catalog, id, inp).value;
    Catalog.UpdateViolationKeepsIds(db.catalog, id, inp);
    var pivots := Filter(db.snapshots, PivotOf(ticketId));
    JoinKeepsSnapshots(db.catalog, c, pivots);
    TotalUsesSnapshots(Join(db.catalog, pivots), Join(c, pivots));
  }
}
