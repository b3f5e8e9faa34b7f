/** The violation catalog of `ViolationController`: the distinct types, the filtered and
    sorted listing, and the validated create and update. Create and update are
    transitions of the catalog table; the `LedgerStore` class applies them in place. */
module Catalog {
  import opened Wrappers
  import opened Seqs
  import opened Text
  import opened Records
  import opened Validation

  // ---------------------------------------------------------------- types

  function KindOf(v: Violation): string { v.kind }

  /** `select distinct type ... orderBy('type')->pluck('type')` */
  function Types(catalog: seq<Violation>): seq<string>
  {
    SortedDistinct(Map(catalog, KindOf), LexLt)
  }

  lemma LexLtStrictTotal(s: seq<string>)
    ensures StrictTotalOn(s, LexLt)
  {
    forall a | a in s ensures !LexLt(a, a) {
      LexLtIrreflexive(a);
    }
    forall a, b | a in s && b in s && a != b ensures LexLt(a, b) || LexLt(b, a) {
      LexLtTotal(a, b);
    }
    forall a, b, c | a in s && b in s && c in s && LexLt(a, b) && LexLt(b, c) ensures LexLt(a, c) {
      LexLtTransitive(a, b, c);
    }
  }

  /** Every type of the catalog appears exactly once, in ascending order, and nothing else does. */
  lemma TypesSpec(catalog: seq<Violation>)
    ensures var r := Types(catalog);
      && StrictlyIncreasing(r, LexLt)
      && (forall i, j :: 0 <= i < j < |r| ==> r[i] != r[j])
      && (forall k :: 0 <= k < |catalog| ==> catalog[k].kind in r)
      && (forall i :: 0 <= i < |r| ==> exists k :: 0 <= k < |catalog| && catalog[k].kind == r[i])
  {
    var kinds := Map(catalog, KindOf);
    var r := Types(catalog);
    LexLtStrictTotal(kinds);
    SortedDistinctIncreasing(kinds, LexLt);
    LexLtStrictTotal(r);
    IncreasingDistinct(r, LexLt);
    forall k | 0 <= k < |catalog| ensures catalog[k].kind in r {
      assert kinds[k] == catalog[k].kind;
    }
    forall i | 0 <= i < |r| ensures exists k :: 0 <= k < |catalog| && catalog[k].kind == r[i] {
      var k :| 0 <= k < |kinds| && kinds[k] == r[i];
      assert catalog[k].kind == r[i];
    }
  }

  // ---------------------------------------------------------------- index

  function KindIs(kind: string): Violation -> bool
  {
    (v: Violation) => v.kind == kind
  }

  /** `name like %q% or ordinance_no like %q%` */
  predicate MentionsText(v: Violation, q: string)
  {
    Contains(v.name, q) || (v.ordinanceNo.Some? && Contains(v.ordinanceNo.value, q))
  }

  function Mentions(q: string): Violation -> bool
  {
    (v: Violation) => MentionsText(v, q)
  }

  /** `orderBy('type')->orderBy('name')` */
  predicate KindNameLe(a: Violation, b: Violation)
  {
    LexLt(a.kind, b.kind) || (a.kind == b.kind && LexLe(a.name, b.name))
  }

  lemma KindNamePreorder(s: seq<Violation>)
    ensures TotalPreorderOn(s, KindNameLe)
  {
    forall a, b | a in s && b in s ensures KindNameLe(a, b) || KindNameLe(b, a) {
      if a.kind != b.kind {
        LexLtTotal(a.kind, b.kind);
      } else if a.name != b.name {
        LexLtTotal(a.name, b.name);
      }
    }
    forall a, b, c | a in s && b in s && c in s && KindNameLe(a, b) && KindNameLe(b, c) ensures KindNameLe(a, c) {
      if LexLt(a.kind, b.kind) && LexLt(b.kind, c.kind) {
        LexLtTransitive(a.kind, b.kind, c.kind);
      } else if a.kind == b.kind && b.kind == c.kind && a.name != b.name && b.name != c.name {
        LexLtTransitive(a.name, b.name, c.name);
      }
    }
  }

  /** The `where` clauses of `index` on the trimmed parameters: a row of the type `kind`
      mentioning `q`, where an empty parameter does not filter. */
  predicate Matches(v: Violation, q: string, kind: string)
  {
    (kind != "" ==> v.kind == kind) && (q != "" ==> MentionsText(v, q))
  }

  function Where(catalog: seq<Violation>, q: string, kind: string): seq<Violation>
  {
    FilterIf(q != "", FilterIf(kind != "", catalog, KindIs(kind)), Mentions(q))
  }

  lemma WhereSpec(catalog: seq<Violation>, q: string, kind: string)
    ensures var s := Where(catalog, q, kind);
      && (forall x :: x in s <==> x in catalog && Matches(x, q, kind))
      && multiset(s) <= multiset(catalog)
  {
    var byKind := FilterIf(kind != "", catalog, KindIs(kind));
    var s := FilterIf(q != "", byKind, Mentions(q));
    FilterIfSpec(kind != "", catalog, KindIs(kind));
    FilterIfSpec(q != "", byKind, Mentions(q));
    forall x ensures x in s <==> x in catalog && Matches(x, q, kind) {
      assert KindIs(kind)(x) == (x.kind == kind);
      assert Mentions(q)(x) == MentionsText(x, q);
    }
  }

  /** The ordered listing of the rows `Where` keeps. */
  lemma {:induction false} OrderedWhereSpec(catalog: seq<Violation>, q: string, kind: string)
    ensures var r := SortBy(Where(catalog, q, kind), KindNameLe);
      && (forall i :: 0 <= i < |r| ==> r[i] in catalog && Matches(r[i], q, kind))
      && (forall k :: 0 <= k < |catalog| && Matches(catalog[k], q, kind) ==> catalog[k] in r)
      && multiset(r) <= multiset(catalog)
      && SortedBy(r, KindNameLe)
  {
    var s := Where(catalog, q, kind);
    var r := SortBy(s, KindNameLe);
    WhereSpec(catalog, q, kind);
    KindNamePreorder(s);
    SortBySorted(s, KindNameLe);
    forall i | 0 <= i < |r| ensures r[i] in catalog && Matches(r[i], q, kind) {
      assert r[i] in multiset(s);
    }
    forall k | 0 <= k < |catalog| && Matches(catalog[k], q, kind) ensures catalog[k] in r {
      assert catalog[k] in multiset(s);
    }
  }

  /** `index`: both parameters are trimmed first. */
  function Index(catalog: seq<Violation>, q: string, kind: string): seq<Violation>
  {
    SortBy(Where(catalog, Trim(q), Trim(kind)), KindNameLe)
  }

  /** The row a listing keeps: of the requested type (when one is given) and mentioning
      the search text (when one is given), both trimmed. */
  predicate Selected(v: Violation, q: string, kind: string)
  {
    Matches(v, Trim(q), Trim(kind))
  }

  /** The listing holds exactly the selected rows (both filters combined), each once per
      catalog row, ordered by type and then name. */
  lemma IndexSpec(catalog: seq<Violation>, q: string, kind: string)
    ensures var r := Index(catalog, q, kind);
      && (forall i :: 0 <= i < |r| ==> r[i] in catalog && Selected(r[i], q, kind))
      && (forall k :: 0 <= k < |catalog| && Selected(catalog[k], q, kind) ==> catalog[k] in r)
      && multiset(r) <= multiset(catalog)
      && SortedBy(r, KindNameLe)
  {
    OrderedWhereSpec(catalog, Trim(q), Trim(kind));
  }

  // ---------------------------------------------------------------- store, update

  /** The validated body of `store` and `update`. `ordinanceNo` is None when the request
      has no `ordinance_no` key (the validator then leaves it out of `$data`), `Some(None)`
      for an explicit null, and `Some(Some(s))` for a string. */
  datatype ViolationInput = ViolationInput(kind: string, name: string, fine: Cents, ordinanceNo: Option<Option<string>>)

  /** The `ordinance_no` column `create` writes: an absent key leaves the column's default, null. */
  function CreatedOrdinanceNo(inp: ViolationInput): Option<string>
  {
    inp.ordinanceNo.GetOr(None)
  }

  /** The row `$violation->update($data)` leaves: the submitted columns replaced, and
      `ordinance_no` kept when the request has no such key. */
  function Updated(v: Violation, inp: ViolationInput): Violation
  {
    v.(kind := inp.kind, name := inp.name, fine := inp.fine, ordinanceNo := inp.ordinanceNo.GetOr(v.ordinanceNo))
  }

  datatype CatalogError = KindInvalid | NameInvalid | FineNegative | OrdinanceNoTooLong | ViolationNotFound

  /** `type` and `name` required and at most 255 characters, `fine` at least 0,
      `ordinance_no` nullable and at most 255 characters, checked in that order. */
  function CheckInput(inp: ViolationInput): (r: Option<CatalogError>)
    ensures r != Some(ViolationNotFound)
  {
    if !RequiredString(inp.kind, MaxString) then Some(KindInvalid)
    else if !RequiredString(inp.name, MaxString) then Some(NameInvalid)
    else if inp.fine < 0 then Some(FineNegative)
    else if inp.ordinanceNo.Some? && !NullableString(inp.ordinanceNo.value, MaxString) then Some(OrdinanceNoTooLong)
    else None
  }

  predicate ValidInput(inp: ViolationInput)
  {
    RequiredString(inp.kind, MaxString) && RequiredString(inp.name, MaxString)
    && inp.fine >= 0 && (inp.ordinanceNo.Some? ==> NullableString(inp.ordinanceNo.value, MaxString))
  }

  lemma CheckInputSpec(inp: ViolationInput)
    ensures CheckInput(inp).None? <==> ValidInput(inp)
    ensures !Present(inp.kind) || |inp.kind| > MaxString ==> CheckInput(inp) == Some(KindInvalid)
    ensures RequiredString(inp.kind, MaxString) && (!Present(inp.name) || |inp.name| > MaxString) ==> CheckInput(inp) == Some(NameInvalid)
    ensures RequiredString(inp.kind, MaxString) && RequiredString(inp.name, MaxString) && inp.fine < 0 ==> CheckInput(inp) == Some(FineNegative)
  {
  }

  function ViolationId(v: Violation): nat { v.id }

  /** `Violation::create($data)` after validation. */
  function CreateViolation(catalog: seq<Violation>, inp: ViolationInput): Result<seq<Violation>, CatalogError>
  {
    match CheckInput(inp)
    case Some(e) => Err(e)
    case None => Ok(catalog + [Violation(NextId(catalog, ViolationId), inp.kind, inp.name, inp.fine, CreatedOrdinanceNo(inp))])
  }

  /** `update`: the route binding looks the row up first (not found before validation),
      then `$violation->update($data)`. */
  function UpdateViolation(catalog: seq<Violation>, id: nat, inp: ViolationInput): Result<seq<Violation>, CatalogError>
  {
    match FindViolation(catalog, id)
    case None => Err(ViolationNotFound)
    case Some(k) =>
      match CheckInput(inp)
      case Some(e) => Err(e)
      case None => Ok(catalog[k := Updated(catalog[k], inp)])
  }

  /** A valid input adds one row with a fresh id and the submitted values; anything else
      is refused and the catalog is unchanged. */
  lemma CreateViolationSpec(catalog: seq<Violation>, inp: ViolationInput)
    ensures CreateViolation(catalog, inp).Ok? <==> ValidInput(inp)
    ensures CreateViolation(catalog, inp).Ok? ==>
      var c := CreateViolation(catalog, inp).value;
      && |c| == |catalog| + 1 && c[..|catalog|] == catalog
      && var v := c[|catalog|];
      && v.kind == inp.kind && v.name == inp.name && v.fine == inp.fine
      && (inp.ordinanceNo.Some? ==> v.ordinanceNo == inp.ordinanceNo.value)
      && (inp.ordinanceNo.None? ==> v.ordinanceNo.None?)
      && (forall k :: 0 <= k < |catalog| ==> catalog[k].id != v.id)
  {
    CheckInputSpec(inp);
    if ValidInput(inp) {
      var c := CreateViolation(catalog, inp).value;
      assert c[..|catalog|] == catalog;
    }
  }

  /** An update is accepted exactly for an existing row and valid input; an unknown id
      gives not-found whatever the input. */
  lemma UpdateViolationOutcome(catalog: seq<Violation>, id: nat, inp: ViolationInput)
    ensures UpdateViolation(catalog, id, inp) == Err(ViolationNotFound) <==> forall k :: 0 <= k < |catalog| ==> catalog[k].id != id
    ensures UpdateViolation(catalog, id, inp).Ok? <==> ValidInput(inp) && exists k :: 0 <= k < |catalog| && catalog[k].id == id
  {
    CheckInputSpec(inp);
    UpdateViolationCases(catalog, id, inp);
  }

  /** An accepted update rewrites the first row with that id alone: it keeps its id, takes
      the submitted type, name and fine, takes the submitted `ordinance_no` when the request
      has that key and keeps the stored one otherwise. */
  lemma UpdateViolationSpec(catalog: seq<Violation>, id: nat, inp: ViolationInput)
    requires UpdateViolation(catalog, id, inp).Ok?
    ensures ValidInput(inp) && FindViolation(catalog, id).Some?
    ensures var c := UpdateViolation(catalog, id, inp).value;
      var k := FindViolation(catalog, id).value;
      && |c| == |catalog|
      && (forall j :: 0 <= j < |catalog| && j != k ==> c[j] == catalog[j])
      && (forall j :: 0 <= j < |catalog| && catalog[j].id != id ==> c[j] == catalog[j])
      && c[k].id == id && c[k].kind == inp.kind && c[k].name == inp.name && c[k].fine == inp.fine
      && (inp.ordinanceNo.Some? ==> c[k].ordinanceNo == inp.ordinanceNo.value)
      && (inp.ordinanceNo.None? ==> c[k].ordinanceNo == catalog[k].ordinanceNo)
  {
    CheckInputSpec(inp);
    UpdateViolationCases(catalog, id, inp);
    var k := FindViolation(catalog, id).value;
    assert catalog[k].id == id;
  }

  /** An update that leaves `ordinance_no` out keeps the stored ordinance number, whatever
      it is, and sets every other submitted column. */
  lemma UpdateKeepsOmittedOrdinanceNo(catalog: seq<Violation>, id: nat, inp: ViolationInput, k: nat)
    requires k < |catalog| && catalog[k].id == id
    requires forall j :: 0 <= j < k ==> catalog[j].id != id
    requires ValidInput(inp) && inp.ordinanceNo.None?
    ensures UpdateViolation(catalog, id, inp).Ok?
    ensures UpdateViolation(catalog, id, inp).value[k]
         == Violation(id, inp.kind, inp.name, inp.fine, catalog[k].ordinanceNo)
  {
    CheckInputSpec(inp);
    assert FindViolation(catalog, id) == Some(k);
  }

  /** Which step decides the outcome of `update`. */
  lemma UpdateViolationCases(catalog: seq<Violation>, id: nat, inp: ViolationInput)
    ensures FindViolation(catalog, id).None? ==> UpdateViolation(catalog, id, inp) == Err(ViolationNotFound)
    ensures FindViolation(catalog, id).Some? && CheckInput(inp).Some? ==>
      UpdateViolation(catalog, id, inp) == Err(CheckInput(inp).value)
    ensures FindViolation(catalog, id).Some? && CheckInput(inp).None? ==>
      UpdateViolation(catalog, id, inp) == Ok(catalog[FindViolation(catalog, id).value := Updated(catalog[FindViolation(catalog, id).value], inp)])
  {
  }

  /** An update never changes which ids the catalog holds, so tickets and their fine
      snapshots keep pointing at the same rows. */
  lemma UpdateViolationKeepsIds(catalog: seq<Violation>, id: nat, inp: ViolationInput)
    requires UpdateViolation(catalog, id, inp).Ok?
    ensures var c := UpdateViolation(catalog, id, inp).value;
      |c| == |catalog| && forall k :: 0 <= k < |c| ==> c[k].id == catalog[k].id
  {
  }
}
