/** Ticket issuance, `TicketController::store`: validation, the violator upsert keyed on
    the licence, the fine read from the catalog for every selection, the ticket row with
    its generated control number, and one snapshot row per selection, all in one
    transaction. The transition here is all-or-nothing: an error leaves the ledger as it
    was. The `LedgerStore` class runs the same steps in place, with the pivot loop. */
module Issuance {
  import opened Wrappers
  import opened Seqs
  import opened Text
  import opened Records
  import opened Validation
  import opened ControlNumbers

  /** The submitted form. `age`, `sex` and `compliance_date` are validated but are not in
      the models' `$fillable` lists. */
  datatype IssueRequest = IssueRequest(
    violatorName: string,
    driversLicense: string,
    plateNo: Option<string>,
    placeOfApprehension: Option<string>,
    age: Option<int>,
    sex: Option<string>,
    address: Option<string>,
    complianceDate: Option<Date>,
    violations: seq<nat>)

  datatype IssueError =
    | ViolatorNameInvalid
    | LicenceInvalid
    | PlateNoTooLong
    | PlaceTooLong
    | SexTooLong
    | AddressTooLong
    | NoViolations
    | UnknownViolation(id: nat)
    /** the unique control_no refused the generated number; the transaction rolls back */
    | ControlNoTaken
    /** the unique (ticket_id, violation_id) refused a pivot row; the transaction rolls back */
    | DuplicateViolation(id: nat)

  /** The maximum length of the `sex` field. */
  const MaxSex: nat := 10

  // ---------------------------------------------------------------- validation

  predicate InCatalog(catalog: seq<Violation>, id: nat)
  {
    FindViolation(catalog, id).Some?
  }

  function FirstUnknown(catalog: seq<Violation>, ids: seq<nat>): (r: Option<nat>)
    ensures r.None? <==> forall i :: 0 <= i < |ids| ==> InCatalog(catalog, ids[i])
    ensures r.Some? ==> exists i :: 0 <= i < |ids| && ids[i] == r.value && !InCatalog(catalog, ids[i])
  {
    if ids == [] then None
    else if !InCatalog(catalog, ids[0]) then Some(ids[0])
    else
      var rest := FirstUnknown(catalog, ids[1..]);
      assert forall i :: 1 <= i < |ids| ==> ids[i] == ids[1..][i - 1];
      if rest.Some? then
        assert exists i :: 0 <= i < |ids[1..]| && ids[1..][i] == rest.value && !InCatalog(catalog, ids[1..][i]);
        var i :| 0 <= i < |ids[1..]| && ids[1..][i] == rest.value && !InCatalog(catalog, ids[1..][i]);
        assert ids[i + 1] == rest.value;
        rest
      else rest
  }

  /** The rules of `$request->validate`, in the order they are listed. */
  function CheckRequest(catalog: seq<Violation>, req: IssueRequest): (r: Option<IssueError>)
    ensures r.None? ==> |req.violations| >= 1
  {
    if !RequiredString(req.violatorName, MaxString) then Some(ViolatorNameInvalid)
    else if !RequiredString(req.driversLicense, MaxString) then Some(LicenceInvalid)
    else if !NullableString(req.plateNo, MaxString) then Some(PlateNoTooLong)
    else if !NullableString(req.placeOfApprehension, MaxString) then Some(PlaceTooLong)
    else if !NullableString(req.sex, MaxSex) then Some(SexTooLong)
    else if !NullableString(req.address, MaxString) then Some(AddressTooLong)
    else if req.violations == [] then Some(NoViolations)
    else match FirstUnknown(catalog, req.violations)
      case Some(id) => Some(UnknownViolation(id))
      case None => None
  }

  predicate ValidRequest(catalog: seq<Violation>, req: IssueRequest)
  {
    && RequiredString(req.violatorName, MaxString)
    && RequiredString(req.driversLicense, MaxString)
    && NullableString(req.plateNo, MaxString)
    && NullableString(req.placeOfApprehension, MaxString)
    && NullableString(req.sex, MaxSex)
    && NullableString(req.address, MaxString)
    && |req.violations| >= 1
    && forall i :: 0 <= i < |req.violations| ==> InCatalog(catalog, req.violations[i])
  }

  lemma CheckRequestSpec(catalog: seq<Violation>, req: IssueRequest)
    ensures CheckRequest(catalog, req).None? <==> ValidRequest(catalog, req)
  {
  }

  // ---------------------------------------------------------------- step 1: the violator

  function LicenceIs(licence: string): Violator -> bool
  {
    (v: Violator) => v.driversLicense == licence
  }

  function ViolatorId(v: Violator): nat { v.id }

  /** `Violator::updateOrCreate(['drivers_license' => ...], [...])`: the first row with
      the licence is overwritten, or a row is appended; `kd_no` is reset to null, and
      `age` and `sex` are dropped because they are not fillable. Returns the table and
      the violator's id. */
  function UpsertViolator(violators: seq<Violator>, req: IssueRequest): (seq<Violator>, nat)
  {
    match IndexWhere(violators, LicenceIs(req.driversLicense))
    case Some(k) =>
      (violators[k := Violator(violators[k].id, req.violatorName, req.address, req.driversLicense, req.plateNo, None)], violators[k].id)
    case None =>
      var id := NextId(violators, ViolatorId);
      (violators + [Violator(id, req.violatorName, req.address, req.driversLicense, req.plateNo, None)], id)
  }

  // ---------------------------------------------------------------- step 2: the fines

  /** `Violation::findOrFail($id)->fine` */
  function FineOf(catalog: seq<Violation>, id: nat): Cents
  {
    match FindViolation(catalog, id)
    case Some(k) => catalog[k].fine
    case None => 0
  }

  /** The items of the `map`: one per selection, in submission order, with the current
      catalog fine. */
  function Items(catalog: seq<Violation>, ids: seq<nat>, ticketId: nat): (r: seq<TicketViolation>)
    ensures |r| == |ids|
    ensures forall i :: 0 <= i < |ids| ==> r[i] == TicketViolation(ticketId, ids[i], FineOf(catalog, ids[i]), None)
  {
    if ids == [] then [] else [TicketViolation(ticketId, ids[0], FineOf(catalog, ids[0]), None)] + Items(catalog, ids[1..], ticketId)
  }

  function SnapshotFine(s: TicketViolation): Cents { s.fineAmount }

  /** The sum of the catalog fines of the selections, every occurrence counted. */
  function SelectionFine(catalog: seq<Violation>, ids: seq<nat>): Cents
  {
    if ids == [] then 0 else FineOf(catalog, ids[0]) + SelectionFine(catalog, ids[1..])
  }

  lemma {:induction false} ItemsFine(catalog: seq<Violation>, ids: seq<nat>, ticketId: nat)
    ensures SumOf(Items(catalog, ids, ticketId), SnapshotFine) == SelectionFine(catalog, ids)
  {
    if ids != [] {
      ItemsFine(catalog, ids[1..], ticketId);
      assert Items(catalog, ids, ticketId)[1..] == Items(catalog, ids[1..], ticketId);
    }
  }

  lemma {:induction false} SelectionFineNonNegative(catalog: seq<Violation>, ids: seq<nat>)
    requires forall k :: 0 <= k < |catalog| ==> catalog[k].fine >= 0
    ensures SelectionFine(catalog, ids) >= 0
  {
    if ids != [] {
      SelectionFineNonNegative(catalog, ids[1..]);
    }
  }

  // ---------------------------------------------------------------- step 4: the pivot rows

  /** The unique (ticket_id, violation_id) index already holds this pair. */
  predicate PairTaken(snapshots: seq<TicketViolation>, item: TicketViolation)
  {
    exists k :: 0 <= k < |snapshots| && snapshots[k].ticketId == item.ticketId && snapshots[k].violationId == item.violationId
  }

  /** The `foreach` of inserts; the first refused insert aborts the transaction. */
  function InsertSnapshots(snapshots: seq<TicketViolation>, items: seq<TicketViolation>): Result<seq<TicketViolation>, IssueError>
    decreases |items|
  {
    if items == [] then Ok(snapshots)
    else if PairTaken(snapshots, items[0]) then Err(DuplicateViolation(items[0].violationId))
    else InsertSnapshots(snapshots + [items[0]], items[1..])
  }

  /** A successful run of the inserts has appended every item, in order. */
  lemma {:induction false} InsertSnapshotsAppends(snapshots: seq<TicketViolation>, items: seq<TicketViolation>)
    requires InsertSnapshots(snapshots, items).Ok?
    ensures InsertSnapshots(snapshots, items).value == snapshots + items
    decreases |items|
  {
    if items == [] {
      assert snapshots + items == snapshots;
    } else {
      InsertSnapshotsAppends(snapshots + [items[0]], items[1..]);
      assert snapshots + items == (snapshots + [items[0]]) + items[1..];
    }
  }

  predicate PairsDistinct(s: seq<TicketViolation>)
  {
    forall i, j :: 0 <= i < j < |s| ==> s[i].ticketId != s[j].ticketId || s[i].violationId != s[j].violationId
  }

  /** The inserts succeed exactly when the rows together keep the pairs distinct, and
      then every item is appended in order. */
  lemma {:induction false} InsertSnapshotsSpec(snapshots: seq<TicketViolation>, items: seq<TicketViolation>)
    requires PairsDistinct(snapshots)
    ensures InsertSnapshots(snapshots, items).Ok? <==> PairsDistinct(snapshots + items)
    ensures InsertSnapshots(snapshots, items).Ok? ==> InsertSnapshots(snapshots, items).value == snapshots + items
    decreases |items|
  {
    if items == [] {
      assert snapshots + items == snapshots;
    } else {
      var s1 := snapshots + [items[0]];
      assert snapshots + items == s1 + items[1..];
      if PairTaken(snapshots, items[0]) {
        var k :| 0 <= k < |snapshots| && snapshots[k].ticketId == items[0].ticketId && snapshots[k].violationId == items[0].violationId;
        var all := snapshots + items;
        assert all[k] == snapshots[k] && all[|snapshots|] == items[0];
        assert !(all[k].ticketId != all[|snapshots|].ticketId || all[k].violationId != all[|snapshots|].violationId);
        assert !PairsDistinct(all);
      } else {
        assert PairsDistinct(s1);
        InsertSnapshotsSpec(s1, items[1..]);
      }
    }
  }

  // ---------------------------------------------------------------- the transaction

  datatype Issued = Issued(db: Db, ticket: Ticket)

  function TicketId(t: Ticket): nat { t.id }

  function ControlNoOf(t: Ticket): string { t.controlNo }

  function ControlNos(tickets: seq<Ticket>): seq<string>
  {
    Map(tickets, ControlNoOf)
  }

  /** The ticket row `Ticket::create` writes: no control_no is passed, so the `creating`
      hook generates one; `compliance_date` is not fillable. */
  function NewTicket(db: Db, req: IssueRequest, violatorId: nat, enforcerId: nat, now: Instant, today: Date): Ticket
    requires |req.violations| >= 1
  {
    var fine := SumOf(Items(db.catalog, req.violations, NextId(db.tickets, TicketId)), SnapshotFine);
    var additionalFees := 0;
    Ticket(NextId(db.tickets, TicketId), violatorId, enforcerId, req.violations[0], fine, additionalFees, fine + additionalFees,
           req.placeOfApprehension, now, ControlNoOnCreate(None, ControlNos(db.tickets), today), Unpaid, now)
  }

  /** The closure of `DB::transaction`: upsert the violator, create the ticket, insert
      the pivot rows; any refused step aborts the whole. */
  function Transaction(db: Db, req: IssueRequest, enforcerId: nat, now: Instant, today: Date): Result<Issued, IssueError>
    requires |req.violations| >= 1
  {
    var up := UpsertViolator(db.violators, req);
    var t := NewTicket(db, req, up.1, enforcerId, now, today);
    if t.controlNo in ControlNos(db.tickets) then Err(ControlNoTaken)
    else match InsertSnapshots(db.snapshots, Items(db.catalog, req.violations, t.id))
      case Err(e) => Err(e)
      case Ok(snapshots) => Ok(Issued(db.(violators := up.0, tickets := db.tickets + [t], snapshots := snapshots), t))
  }

  /** `store`: validation, then the transaction. The enforcer's id, the clock and today's
      date are parameters. */
  function Issue(db: Db, req: IssueRequest, enforcerId: nat, now: Instant, today: Date): Result<Issued, IssueError>
  {
    match CheckRequest(db.catalog, req)
    case Some(e) => Err(e)
    case None => Transaction(db, req, enforcerId, now, today)
  }

  // ---------------------------------------------------------------- what the transaction does

  /** The same violation selected twice. */
  predicate Distinct(ids: seq<nat>)
  {
    forall i, j :: 0 <= i < j < |ids| ==> ids[i] != ids[j]
  }

  /** The keyed upsert: an unknown licence appends a violator with a fresh id; a known
      one overwrites the first row holding it, in place and under its old id. */
  lemma UpsertViolatorSpec(violators: seq<Violator>, req: IssueRequest)
    ensures var (vs, id) := UpsertViolator(violators, req);
      (forall k :: 0 <= k < |violators| ==> violators[k].driversLicense != req.driversLicense) ==>
        && vs == violators + [Violator(id, req.violatorName, req.address, req.driversLicense, req.plateNo, None)]
        && forall k :: 0 <= k < |violators| ==> violators[k].id < id
    ensures var (vs, id) := UpsertViolator(violators, req);
      forall k :: 0 <= k < |violators| && violators[k].driversLicense == req.driversLicense
                  && (forall j :: 0 <= j < k ==> violators[j].driversLicense != req.driversLicense) ==>
        && vs == violators[k := Violator(violators[k].id, req.violatorName, req.address, req.driversLicense, req.plateNo, None)]
        && id == violators[k].id
  {
    var m := IndexWhere(violators, LicenceIs(req.driversLicense));
    forall k | 0 <= k < |violators|
      ensures LicenceIs(req.driversLicense)(violators[k]) == (violators[k].driversLicense == req.driversLicense)
    {
    }
    forall k | 0 <= k < |violators| && violators[k].driversLicense == req.driversLicense
               && (forall j :: 0 <= j < k ==> violators[j].driversLicense != req.driversLicense)
      ensures m == Some(k)
    {
    }
  }

  /** A refused form writes nothing and reports the first rule that failed. */
  lemma IssueRefusesInvalid(db: Db, req: IssueRequest, enforcerId: nat, now: Instant, today: Date)
    ensures !ValidRequest(db.catalog, req) ==> Issue(db, req, enforcerId, now, today) == Err(CheckRequest(db.catalog, req).value)
    ensures Issue(db, req, enforcerId, now, today).Ok? ==> ValidRequest(db.catalog, req)
  {
    CheckRequestSpec(db.catalog, req);
  }

  /** What a successful issuance writes: the upserted violator, one new Unpaid ticket
      whose fine is the sum of the selections' catalog fines and whose number is the
      generated one, and one snapshot row per selection; the catalog and the payments are
      untouched. */
  ghost predicate Writes(db: Db, req: IssueRequest, enforcerId: nat, now: Instant, today: Date, r: Issued)
  {
    && |req.violations| >= 1
    && r.db.violators == UpsertViolator(db.violators, req).0 && r.ticket.violatorId == UpsertViolator(db.violators, req).1
    && r.db.tickets == db.tickets + [r.ticket]
    && r.ticket.id == NextId(db.tickets, TicketId)
    && (forall k :: 0 <= k < |db.tickets| ==> db.tickets[k].id < r.ticket.id)
    && r.ticket.controlNo == NextControlNo(ControlNos(db.tickets), today)
    && (forall k :: 0 <= k < |db.tickets| ==> db.tickets[k].controlNo != r.ticket.controlNo)
    && r.ticket.violationId == req.violations[0]
    && r.ticket.fineAmount == SelectionFine(db.catalog, req.violations)
    && r.ticket.additionalFees == 0 && r.ticket.totalAmount == r.ticket.fineAmount
    && r.ticket.status == Unpaid && r.ticket.enforcerId == enforcerId
    && r.ticket.apprehendedAt == now && r.ticket.createdAt == now
    && r.ticket.placeOfApprehension == req.placeOfApprehension
    && r.db.snapshots == db.snapshots + Items(db.catalog, req.violations, r.ticket.id)
    && r.db.catalog == db.catalog && r.db.payments == db.payments
  }

  lemma IssueWrites(db: Db, req: IssueRequest, enforcerId: nat, now: Instant, today: Date, r: Issued)
    requires Issue(db, req, enforcerId, now, today) == Ok(r)
    ensures Writes(db, req, enforcerId, now, today, r)
  {
    var id := NextId(db.tickets, TicketId);
    assert |req.violations| >= 1;
    ItemsFine(db.catalog, req.violations, id);
    InsertSnapshotsAppends(db.snapshots, Items(db.catalog, req.violations, id));
    forall k | 0 <= k < |db.tickets|
      ensures db.tickets[k].controlNo != r.ticket.controlNo
    {
      assert ControlNos(db.tickets)[k] == db.tickets[k].controlNo;
    }
    forall k | 0 <= k < |db.tickets|
      ensures db.tickets[k].id < r.ticket.id
    {
      assert TicketId(db.tickets[k]) == db.tickets[k].id;
    }
  }

  /** The new ticket's snapshot pairs clash with no earlier row, so the pivot inserts fail
      exactly when a violation is selected twice. */
  lemma ItemsPairsDistinct(snapshots: seq<TicketViolation>, catalog: seq<Violation>, ids: seq<nat>, ticketId: nat)
    requires PairsDistinct(snapshots)
    requires forall k :: 0 <= k < |snapshots| ==> snapshots[k].ticketId != ticketId
    ensures PairsDistinct(snapshots + Items(catalog, ids, ticketId)) <==> Distinct(ids)
  {
    var items := Items(catalog, ids, ticketId);
    var all := snapshots + items;
    if Distinct(ids) {
      forall i, j | 0 <= i < j < |all|
        ensures all[i].ticketId != all[j].ticketId || all[i].violationId != all[j].violationId
      {
        if j >= |snapshots| && i >= |snapshots| {
          assert all[i].violationId == ids[i - |snapshots|] && all[j].violationId == ids[j - |snapshots|];
        } else if j >= |snapshots| {
          assert all[j].ticketId == ticketId;
        }
      }
    } else {
      var i, j :| 0 <= i < j < |ids| && ids[i] == ids[j];
      assert all[|snapshots| + i] == items[i] && all[|snapshots| + j] == items[j];
    }
  }

  /** Every snapshot row names an existing ticket, so none names the next ticket id. */
  lemma SnapshotsBeforeNext(db: Db)
    requires References(db)
    ensures forall k :: 0 <= k < |db.snapshots| ==> db.snapshots[k].ticketId != NextId(db.tickets, TicketId)
  {
    forall k | 0 <= k < |db.snapshots|
      ensures db.snapshots[k].ticketId != NextId(db.tickets, TicketId)
    {
      var j :| 0 <= j < |db.tickets| && db.tickets[j].id == db.snapshots[k].ticketId;
      assert TicketId(db.tickets[j]) == db.tickets[j].id;
    }
  }

  /** On a consistent ledger the pivot inserts of the new ticket succeed exactly when no
      violation is selected twice. */
  lemma PivotAccepts(db: Db, ids: seq<nat>)
    requires KeysUnique(db) && References(db)
    ensures InsertSnapshots(db.snapshots, Items(db.catalog, ids, NextId(db.tickets, TicketId))).Ok? <==> Distinct(ids)
  {
    var id := NextId(db.tickets, TicketId);
    SnapshotsBeforeNext(db);
    assert PairsDistinct(db.snapshots);
    ItemsPairsDistinct(db.snapshots, db.catalog, ids, id);
    InsertSnapshotsSpec(db.snapshots, Items(db.catalog, ids, id));
  }

  /** The order of the refusals: the form, then the generated number, then the inserts. */
  lemma IssueCases(db: Db, req: IssueRequest, enforcerId: nat, now: Instant, today: Date)
    ensures CheckRequest(db.catalog, req).Some? ==> Issue(db, req, enforcerId, now, today) == Err(CheckRequest(db.catalog, req).value)
    ensures CheckRequest(db.catalog, req).None? ==>
      |req.violations| >= 1 && Issue(db, req, enforcerId, now, today) == Transaction(db, req, enforcerId, now, today)
  {
  }

  lemma TransactionCases(db: Db, req: IssueRequest, enforcerId: nat, now: Instant, today: Date)
    requires |req.violations| >= 1
    ensures
      var up := UpsertViolator(db.violators, req);
      var t := NewTicket(db, req, up.1, enforcerId, now, today);
      && t.id == NextId(db.tickets, TicketId)
      && t.controlNo == NextControlNo(ControlNos(db.tickets), today)
      && (t.controlNo in ControlNos(db.tickets) ==> Transaction(db, req, enforcerId, now, today) == Err(ControlNoTaken))
      && (t.controlNo !in ControlNos(db.tickets) ==>
            Transaction(db, req, enforcerId, now, today) ==
              match InsertSnapshots(db.snapshots, Items(db.catalog, req.violations, t.id))
              case Err(e) => Err(e)
              case Ok(s) => Ok(Issued(db.(violators := up.0, tickets := db.tickets + [t], snapshots := s), t)))
  {
  }

  /** A refused insert reports the violation selected twice. */
  lemma {:induction false} InsertSnapshotsRefusal(snapshots: seq<TicketViolation>, items: seq<TicketViolation>)
    requires InsertSnapshots(snapshots, items).Err?
    ensures InsertSnapshots(snapshots, items).error.DuplicateViolation?
    decreases |items|
  {
    if items != [] && !PairTaken(snapshots, items[0]) {
      InsertSnapshotsRefusal(snapshots + [items[0]], items[1..]);
    }
  }

  /** On a ledger whose keys are unique and whose references resolve, issuance succeeds
      exactly when the form is valid, the generated number is not taken and no violation
      is selected twice; each refusal names its cause. */
  lemma IssueAccepts(db: Db, req: IssueRequest, enforcerId: nat, now: Instant, today: Date)
    requires KeysUnique(db) && References(db)
    ensures Issue(db, req, enforcerId, now, today).Ok? <==>
      && ValidRequest(db.catalog, req)
      && NextControlNo(ControlNos(db.tickets), today) !in ControlNos(db.tickets)
      && Distinct(req.violations)
    ensures ValidRequest(db.catalog, req) && NextControlNo(ControlNos(db.tickets), today) in ControlNos(db.tickets) ==>
      Issue(db, req, enforcerId, now, today) == Err(ControlNoTaken)
    ensures ValidRequest(db.catalog, req) && NextControlNo(ControlNos(db.tickets), today) !in ControlNos(db.tickets) && !Distinct(req.violations) ==>
      Issue(db, req, enforcerId, now, today).Err? && Issue(db, req, enforcerId, now, today).error.DuplicateViolation?
  {
    IssueCases(db, req, enforcerId, now, today);
    if |req.violations| >= 1 {
      TransactionCases(db, req, enforcerId, now, today);
    }
    CheckRequestSpec(db.catalog, req);
    PivotAccepts(db, req.violations);
    var ins := InsertSnapshots(db.snapshots, Items(db.catalog, req.violations, NextId(db.tickets, TicketId)));
    if ins.Err? {
      InsertSnapshotsRefusal(db.snapshots, Items(db.catalog, req.violations, NextId(db.tickets, TicketId)));
    }
  }

  // ---------------------------------------------------------------- the ledger invariant

  lemma CommitTicketKeys(db: Db, req: IssueRequest, enforcerId: nat, now: Instant, today: Date, r: Issued)
    requires KeysUnique(db) && Writes(db, req, enforcerId, now, today, r)
    ensures forall i, j :: 0 <= i < j < |r.db.tickets| ==> r.db.tickets[i].id != r.db.tickets[j].id
    ensures forall i, j :: 0 <= i < j < |r.db.tickets| ==> r.db.tickets[i].controlNo != r.db.tickets[j].controlNo
  {
    var n := |db.tickets|;
    assert r.db.tickets[n] == r.ticket;
    assert forall k :: 0 <= k < n ==> r.db.tickets[k] == db.tickets[k];
  }

  lemma CommitKeysUnique(db: Db, req: IssueRequest, enforcerId: nat, now: Instant, today: Date, r: Issued)
    requires KeysUnique(db) && References(db) && Writes(db, req, enforcerId, now, today, r) && Distinct(req.violations)
    ensures KeysUnique(r.db)
  {
    SnapshotsBeforeNext(db);
    assert PairsDistinct(db.snapshots);
    ItemsPairsDistinct(db.snapshots, db.catalog, req.violations, r.ticket.id);
    ViolatorIdsUnique(db, req);
    CommitTicketKeys(db, req, enforcerId, now, today, r);
  }

  lemma ViolatorIdsUnique(db: Db, req: IssueRequest)
    requires KeysUnique(db)
    ensures var vs := UpsertViolator(db.violators, req).0;
      forall i, j :: 0 <= i < j < |vs| ==> vs[i].id != vs[j].id
  {
    UpsertViolatorSpec(db.violators, req);
    var vs := UpsertViolator(db.violators, req).0;
    match IndexWhere(db.violators, LicenceIs(req.driversLicense))
    case Some(k) =>
      assert forall i :: 0 <= i < |vs| ==> vs[i].id == db.violators[i].id;
    case None =>
      assert forall i :: 0 <= i < |db.violators| ==> vs[i] == db.violators[i];
  }

  lemma UpsertLicencesUnique(db: Db, req: IssueRequest)
    requires LicencesUnique(db)
    ensures var vs := UpsertViolator(db.violators, req).0;
      forall i, j :: 0 <= i < j < |vs| ==> vs[i].driversLicense != vs[j].driversLicense
  {
    var vs := UpsertViolator(db.violators, req).0;
    var m := IndexWhere(db.violators, LicenceIs(req.driversLicense));
    match m
    case Some(k) =>
      assert forall i :: 0 <= i < |vs| ==> vs[i].driversLicense == db.violators[i].driversLicense;
    case None =>
      forall i | 0 <= i < |db.violators|
        ensures vs[i] == db.violators[i] && db.violators[i].driversLicense != req.driversLicense
      {
        assert !LicenceIs(req.driversLicense)(db.violators[i]);
      }
  }

  lemma CommitReferences(db: Db, req: IssueRequest, enforcerId: nat, now: Instant, today: Date, r: Issued)
    requires References(db) && Writes(db, req, enforcerId, now, today, r)
    ensures References(r.db)
  {
    var n := |db.tickets|;
    assert r.db.tickets[n] == r.ticket;
    forall k | 0 <= k < |r.db.payments|
      ensures HasTicket(r.db.tickets, r.db.payments[k].ticketId)
    {
      var j :| 0 <= j < n && db.tickets[j].id == db.payments[k].ticketId;
      assert r.db.tickets[j] == db.tickets[j];
    }
    forall k | 0 <= k < |r.db.snapshots|
      ensures HasTicket(r.db.tickets, r.db.snapshots[k].ticketId)
    {
      if k < |db.snapshots| {
        var j :| 0 <= j < n && db.tickets[j].id == db.snapshots[k].ticketId;
        assert r.db.tickets[j] == db.tickets[j];
      } else {
        assert r.db.snapshots[k].ticketId == r.ticket.id;
      }
    }
  }

  lemma CommitSettled(db: Db, req: IssueRequest, enforcerId: nat, now: Instant, today: Date, r: Issued)
    requires References(db) && Amounts(db) && Settled(db) && Writes(db, req, enforcerId, now, today, r)
    ensures Amounts(r.db) && Settled(r.db)
  {
    SelectionFineNonNegative(db.catalog, req.violations);
    forall k | 0 <= k < |db.payments|
      ensures db.payments[k].ticketId != r.ticket.id
    {
      var j :| 0 <= j < |db.tickets| && db.tickets[j].id == db.payments[k].ticketId;
    }
    RecordedSumUnreferenced(db.payments, r.ticket.id);
    var n := |db.tickets|;
    assert r.db.tickets[n] == r.ticket;
    assert forall k :: 0 <= k < n ==> r.db.tickets[k] == db.tickets[k];
  }

  /** Issuance keeps every key of the ledger unique, every reference resolved, one
      violator per licence and every ticket settled within its total. */
  lemma IssueConsistent(db: Db, req: IssueRequest, enforcerId: nat, now: Instant, today: Date, r: Issued)
    requires Consistent(db) && Issue(db, req, enforcerId, now, today) == Ok(r)
    ensures Consistent(r.db)
  {
    IssueWrites(db, req, enforcerId, now, today, r);
    IssueAccepts(db, req, enforcerId, now, today);
    CommitKeysUnique(db, req, enforcerId, now, today, r);
    CommitReferences(db, req, enforcerId, now, today, r);
    CommitSettled(db, req, enforcerId, now, today, r);
    UpsertLicencesUnique(db, req);
  }

  /** Validation reads neither `age` nor `compliance_date`. */
  lemma CheckRequestReads(catalog: seq<Violation>, a: IssueRequest, b: IssueRequest)
    requires a.violatorName == b.violatorName && a.driversLicense == b.driversLicense && a.plateNo == b.plateNo
    requires a.placeOfApprehension == b.placeOfApprehension && a.sex == b.sex && a.address == b.address
    requires a.violations == b.violations
    ensures CheckRequest(catalog, a) == CheckRequest(catalog, b)
  {
  }

  /** The transaction writes no `age`, `sex` or `compliance_date`. */
  lemma TransactionReads(db: Db, a: IssueRequest, b: IssueRequest, enforcerId: nat, now: Instant, today: Date)
    requires a.violatorName == b.violatorName && a.driversLicense == b.driversLicense && a.plateNo == b.plateNo
    requires a.placeOfApprehension == b.placeOfApprehension && a.address == b.address
    requires a.violations == b.violations && |a.violations| >= 1
    ensures Transaction(db, a, enforcerId, now, today) == Transaction(db, b, enforcerId, now, today)
  {
    assert UpsertViolator(db.violators, a) == UpsertViolator(db.violators, b);
    var vid := UpsertViolator(db.violators, a).1;
    assert NewTicket(db, a, vid, enforcerId, now, today) == NewTicket(db, b, vid, enforcerId, now, today);
  }

  /** `age` and `compliance_date` are validated and then dropped: they are not fillable,
      so they change nothing that is written. */
  lemma IssueIgnoresUnfillable(db: Db, req: IssueRequest, age: Option<int>, complianceDate: Option<Date>,
                               enforcerId: nat, now: Instant, today: Date)
    ensures Issue(db, req.(age := age, complianceDate := complianceDate), enforcerId, now, today)
         == Issue(db, req, enforcerId, now, today)
  {
    var req2 := req.(age := age, complianceDate := complianceDate);
    CheckRequestReads(db.catalog, req2, req);
    if req.violations != [] {
      TransactionReads(db, req2, req, enforcerId, now, today);
    }
  }
}
