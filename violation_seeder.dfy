/** `ViolationSeeder`: the catalog fixture (fines in cents) and the loop of keyed
    `updateOrCreate` writes, as a fold over the fixture. The `LedgerStore` class runs
    the same loop in place. */
module ViolationSeeder {
  import opened Wrappers
  import opened Seqs
  import opened Records

  datatype SeedRow = SeedRow(kind: string, name: string, fine: Cents, ordinanceNo: Option<string>)

  /** The `type` values of the three groups. */
  const TricycleKind: string := "TRICYCLE_RELATED"
  const OtherMotorVehicleKind: string := "OTHER_MOTOR_VEHICLE"
  const TrafficKind: string := "TRAFFIC"

  /** The ordinances the fixture cites. */
  const Ord16_1067: string := "Ord. No. 16-1067 Art. 7 Sec. 214"
  const Ord16_1120: string := "Ord. No. 16-1120 Sec. 8-D"
  const Ord1352: string := "Ord. No. 1352"
  const Ord050_96: string := "Ord. No. 050-96"
  const Ord33_94: string := "Ord. No. 33-94"
  const Ord57_1964: string := "Ord. No. 57 s. of 1964"
  const Ord049_96: string := "Ord. No. 049-96"

  /** Each violation name is a named constant, so that reasoning about fines, types and
      counts never has to look inside the longer names. */
  const ColourumOperation: string := "Colourum Operation"
  const Driver: string := "Driver"
  const FailureToDisplayPermitFranchise: string := "Failure to display Permit/Franchise, Tariffa and/or Driver's ID"
  const Overcharging: string := "Overcharging"
  const RefusalToConveyPassenger: string := "Refusal to convey passenger"
  const NoDriversLicense: string := "No Driver's License"
  const NoDriversID: string := "No Driver's ID"
  const UseOfFakeUnauthorizedDrivers: string := "Use of Fake / Unauthorized Driver's ID"
  const UnauthorizedParking: string := "Unauthorized Parking"
  const WearingOfShorts: string := "Wearing of Shorts"
  const RecklessArrogantDriving: string := "Reckless / Arrogant Driving"
  const NoPermit: string := "No Permit"

  /** Group A, tricycle related. */
  function TricycleRows(): seq<SeedRow>
  {
    [
      SeedRow(TricycleKind, ColourumOperation, 500000, Some(Ord16_1067)),
      SeedRow(TricycleKind, Driver, 100000, Some(Ord16_1067)),
      SeedRow(TricycleKind, FailureToDisplayPermitFranchise, 10000, Some(Ord16_1067)),
      SeedRow(TricycleKind, Overcharging, 60000, Some(Ord16_1067)),
      SeedRow(TricycleKind, RefusalToConveyPassenger, 60000, Some(Ord16_1067)),
      SeedRow(TricycleKind, NoDriversLicense, 10000, Some(Ord16_1067)),
      SeedRow(TricycleKind, NoDriversID, 30000, Some(Ord16_1067)),
      SeedRow(TricycleKind, UseOfFakeUnauthorizedDrivers, 30000, Some(Ord16_1067)),
      SeedRow(TricycleKind, UnauthorizedParking, 20000, Some(Ord16_1067)),
      SeedRow(TricycleKind, WearingOfShorts, 200000, Some(Ord16_1120)),
      SeedRow(TricycleKind, RecklessArrogantDriving, 100000, Some(Ord16_1067)),
      SeedRow(TricycleKind, NoPermit, 100000, Some(Ord16_1067))
    ]
  }

  const UseOfStandardProtectiveMotorcycle: string := "Use of standard protective motorcycle helmet while driving and/or riding"
  const RecklessDriving: string := "Reckless Driving"
  const SpeedLimit: string := "Speed Limit"
  const ModifiedMuffler: string := "Modified Muffler"
  const DisregardingTrafficSign: string := "Disregarding Traffic Sign"
  const IllegalParking: string := "Illegal Parking"
  const UseOccupationOfPublicRoad: string := "Use / Occupation of Public Road, Street, Sidewalk, Lanes and Alleys as Open Garage (Private and Public Vehicles)"
  const IllegalUnauthorizedTerminal: string := "Illegal / Unauthorized Terminal"
  const BrokenWindshield: string := "Broken Windshield"
  const IncompleteSideCarNo: string := "Incomplete Side Car No."
  const UnnecessaryLights: string := "Unnecessary Lights"
  const OutOfRouteOperation: string := "Out of Route Operation"
  const NoORCR: string := "No OR / CR"
  const ORCRNotCarried: string := "OR / CR Not Carried"
  const PublicTerminalObstruction: string := "Public Terminal Obstruction"

  /** Group B, other motor vehicles. */
  function OtherMotorVehicleRows(): seq<SeedRow>
  {
    [
      SeedRow(OtherMotorVehicleKind, UseOfStandardProtectiveMotorcycle, 25000, Some(Ord1352)),
      SeedRow(OtherMotorVehicleKind, RecklessDriving, 100000, None),
      SeedRow(OtherMotorVehicleKind, SpeedLimit, 100000, Some(Ord050_96)),
      SeedRow(OtherMotorVehicleKind, ModifiedMuffler, 15000, Some(Ord33_94)),
      SeedRow(OtherMotorVehicleKind, DisregardingTrafficSign, 10000, None),
      SeedRow(OtherMotorVehicleKind, IllegalParking, 10000, Some(Ord57_1964)),
      SeedRow(OtherMotorVehicleKind, UseOccupationOfPublicRoad, 100000, Some(Ord049_96)),
      SeedRow(OtherMotorVehicleKind, IllegalUnauthorizedTerminal, 120000, None),
      SeedRow(OtherMotorVehicleKind, BrokenWindshield, 10000, None),
      SeedRow(OtherMotorVehicleKind, IncompleteSideCarNo, 10000, None),
      SeedRow(OtherMotorVehicleKind, UnnecessaryLights, 10000, None),
      SeedRow(OtherMotorVehicleKind, OutOfRouteOperation, 30000, None),
      SeedRow(OtherMotorVehicleKind, NoORCR, 10000, None),
      SeedRow(OtherMotorVehicleKind, ORCRNotCarried, 10000, None),
      SeedRow(OtherMotorVehicleKind, PublicTerminalObstruction, 10000, None)
    ]
  }

  const DrivingWithoutLicense: string := "Driving without license"
  const NotCarryingLicenseORCR: string := "Not carrying license/OR/CR"
  const RecklessDriving1stOffense: string := "Reckless driving (1st offense)"
  const RecklessDriving2ndOffense: string := "Reckless driving (2nd offense)"
  const RecklessDriving3rdOffense: string := "Reckless driving (3rd offense+)"
  const NoSeatbelt1stOffense: string := "No seatbelt (1st offense)"
  const NoHelmetMotorcycle1stOffense: string := "No helmet (motorcycle, 1st offense)"
  const DisregardingTrafficSignsDTS: string := "Disregarding traffic signs (DTS)"
  const IllegalParkingAttendedMMDA: string := "Illegal parking (attended, MMDA)"
  const IllegalParkingUnattendedMMDA: string := "Illegal parking (unattended, MMDA)"
  const NumberCodingViolationUVVRPMMDA: string := "Number coding violation (UVVRP, MMDA)"
  const UnregisteredVehicle: string := "Unregistered vehicle"
  const DefectiveUnauthorizedAccessoriesSirensBlinkers: string := "Defective / unauthorized accessories (sirens, blinkers, etc.)"

  /** The traffic violations merged after the first list. */
  function TrafficRows(): seq<SeedRow>
  {
    [
      SeedRow(TrafficKind, DrivingWithoutLicense, 300000, None),
      SeedRow(TrafficKind, NotCarryingLicenseORCR, 100000, None),
      SeedRow(TrafficKind, RecklessDriving1stOffense, 200000, None),
      SeedRow(TrafficKind, RecklessDriving2ndOffense, 300000, None),
      SeedRow(TrafficKind, RecklessDriving3rdOffense, 1000000, None),
      SeedRow(TrafficKind, NoSeatbelt1stOffense, 100000, None),
      SeedRow(TrafficKind, NoHelmetMotorcycle1stOffense, 150000, None),
      SeedRow(TrafficKind, DisregardingTrafficSignsDTS, 100000, None),
      SeedRow(TrafficKind, IllegalParkingAttendedMMDA, 100000, None),
      SeedRow(TrafficKind, IllegalParkingUnattendedMMDA, 200000, None),
      SeedRow(TrafficKind, NumberCodingViolationUVVRPMMDA, 50000, None),
      SeedRow(TrafficKind, UnregisteredVehicle, 1000000, None),
      SeedRow(TrafficKind, DefectiveUnauthorizedAccessoriesSirensBlinkers, 500000, None)
    ]
  }

  /** `array_merge($violations, $trafficViolations)` */
  function Fixture(): seq<SeedRow>
  {
    TricycleRows() + OtherMotorVehicleRows() + TrafficRows()
  }

  // ---------------------------------------------------------------- the keyed upsert

  /** No two rows share the (type, name) key. */
  predicate KeysDistinct(rows: seq<SeedRow>)
  {
    forall i, j :: 0 <= i < j < |rows| ==> rows[i].kind != rows[j].kind || rows[i].name != rows[j].name
  }

  /** The first catalog row with the key (type, name). */
  function KeyIndex(catalog: seq<Violation>, kind: string, name: string): (r: Option<nat>)
    ensures r.Some? ==> r.value < |catalog| && catalog[r.value].kind == kind && catalog[r.value].name == name
    ensures r.Some? ==> forall j :: 0 <= j < r.value ==> catalog[j].kind != kind || catalog[j].name != name
    ensures r.None? <==> forall j :: 0 <= j < |catalog| ==> catalog[j].kind != kind || catalog[j].name != name
  {
    IndexWhere(catalog, (v: Violation) => v.kind == kind && v.name == name)
  }

  function ViolationId(v: Violation): nat { v.id }

  /** `Violation::updateOrCreate(['type' => ..., 'name' => ...], $data)` */
  function UpsertRow(catalog: seq<Violation>, row: SeedRow): seq<Violation>
  {
    match KeyIndex(catalog, row.kind, row.name)
    case Some(k) => catalog[k := catalog[k].(fine := row.fine, ordinanceNo := row.ordinanceNo)]
    case None => catalog + [Violation(NextId(catalog, ViolationId), row.kind, row.name, row.fine, row.ordinanceNo)]
  }

  /** The `foreach` over the rows. */
  function SeedAll(catalog: seq<Violation>, rows: seq<SeedRow>): seq<Violation>
    decreases |rows|
  {
    if rows == [] then catalog else SeedAll(UpsertRow(catalog, rows[0]), rows[1..])
  }

  // ---------------------------------------------------------------- the fixture

  /** 12 tricycle, 15 other-motor-vehicle and 13 traffic entries: 40 in all, each group
      under its own type. */
  lemma FixtureCounts()
    ensures |TricycleRows()| == 12 && |OtherMotorVehicleRows()| == 15 && |TrafficRows()| == 13
    ensures |Fixture()| == 40
    ensures forall i :: 0 <= i < 12 ==> Fixture()[i].kind == TricycleKind
    ensures forall i :: 12 <= i < 27 ==> Fixture()[i].kind == OtherMotorVehicleKind
    ensures forall i :: 27 <= i < 40 ==> Fixture()[i].kind == TrafficKind
  {
  }

  /** Every fine of the rows is strictly positive. */
  predicate FinesPositive(rows: seq<SeedRow>)
  {
    forall i :: 0 <= i < |rows| ==> rows[i].fine > 0
  }

  /** Every seeded fine is strictly positive. */
  lemma FixtureFinesPositive()
    ensures FinesPositive(Fixture())
  {
  }

  lemma TricycleNamesDistinct()
    ensures forall i, j :: 0 <= i < j < |TricycleRows()| ==> TricycleRows()[i].name != TricycleRows()[j].name
  {
  }

  lemma OtherMotorVehicleNamesDistinct()
    ensures forall i, j :: 0 <= i < j < |OtherMotorVehicleRows()| ==> OtherMotorVehicleRows()[i].name != OtherMotorVehicleRows()[j].name
  {
  }

  lemma TrafficNamesDistinct()
    ensures forall i, j :: 0 <= i < j < |TrafficRows()| ==> TrafficRows()[i].name != TrafficRows()[j].name
  {
  }

  /** All (type, name) pairs of the fixture are distinct. */
  lemma FixtureKeysDistinct()
    ensures KeysDistinct(Fixture())
  {
    FixtureCounts();
    TricycleNamesDistinct();
    OtherMotorVehicleNamesDistinct();
    TrafficNamesDistinct();
    var f := Fixture();
    assert forall i :: 0 <= i < 12 ==> f[i] == TricycleRows()[i];
    assert forall i :: 12 <= i < 27 ==> f[i] == OtherMotorVehicleRows()[i - 12];
    assert forall i :: 27 <= i < 40 ==> f[i] == TrafficRows()[i - 27];
  }

  // ---------------------------------------------------------------- upsert and seeding

  /** An existing row with the key gets the fine and ordinance number and is not
      duplicated; otherwise one row is appended with a fresh id. */
  lemma UpsertRowSpec(catalog: seq<Violation>, row: SeedRow)
    ensures var c := UpsertRow(catalog, row);
      match KeyIndex(catalog, row.kind, row.name)
      case Some(k) =>
        && |c| == |catalog|
        && c[k] == Violation(catalog[k].id, row.kind, row.name, row.fine, row.ordinanceNo)
        && (forall j :: 0 <= j < |catalog| && j != k ==> c[j] == catalog[j])
      case None =>
        && |c| == |catalog| + 1 && c[..|catalog|] == catalog
        && c[|catalog|].kind == row.kind && c[|catalog|].name == row.name
        && c[|catalog|].fine == row.fine && c[|catalog|].ordinanceNo == row.ordinanceNo
        && (forall j :: 0 <= j < |catalog| ==> catalog[j].id != c[|catalog|].id)
  {
    var c := UpsertRow(catalog, row);
    if KeyIndex(catalog, row.kind, row.name).None? {
      assert c[..|catalog|] == catalog;
    }
  }

  /** The catalog's row for the key carries the row's fine and ordinance number. */
  predicate Reflects(catalog: seq<Violation>, row: SeedRow)
  {
    match KeyIndex(catalog, row.kind, row.name)
    case Some(k) => catalog[k].fine == row.fine && catalog[k].ordinanceNo == row.ordinanceNo
    case None => false
  }

  lemma UpsertReflects(catalog: seq<Violation>, row: SeedRow)
    ensures Reflects(UpsertRow(catalog, row), row)
  {
    var c := UpsertRow(catalog, row);
    UpsertRowSpec(catalog, row);
    match KeyIndex(catalog, row.kind, row.name)
    case Some(k) =>
      assert KeyIndex(c, row.kind, row.name) == Some(k) by {
        forall j | 0 <= j < k ensures c[j].kind != row.kind || c[j].name != row.name {
          assert c[j] == catalog[j];
        }
      }
    case None =>
      assert KeyIndex(c, row.kind, row.name) == Some(|catalog|) by {
        forall j | 0 <= j < |catalog| ensures c[j].kind != row.kind || c[j].name != row.name {
          assert c[j] == catalog[j];
        }
      }
  }

  /** Upserting one key leaves the row found for any other key where it was. */
  lemma UpsertKeepsOtherKey(catalog: seq<Violation>, row: SeedRow, kind: string, name: string)
    requires row.kind != kind || row.name != name
    ensures KeyIndex(UpsertRow(catalog, row), kind, name) == KeyIndex(catalog, kind, name)
    ensures KeyIndex(catalog, kind, name).Some? ==>
      UpsertRow(catalog, row)[KeyIndex(catalog, kind, name).value] == catalog[KeyIndex(catalog, kind, name).value]
  {
    var c := UpsertRow(catalog, row);
    UpsertRowSpec(catalog, row);
    assert forall j :: 0 <= j < |catalog| ==> (c[j].kind == catalog[j].kind && c[j].name == catalog[j].name);
    match KeyIndex(catalog, kind, name)
    case Some(m) =>
      assert m != KeyIndex(catalog, row.kind, row.name).GetOr(|catalog|);
    case None =>
      if KeyIndex(catalog, row.kind, row.name).None? {
        assert c[|catalog|].kind != kind || c[|catalog|].name != name;
      }
  }

  lemma UpsertKeepsReflects(catalog: seq<Violation>, row: SeedRow, other: SeedRow)
    requires Reflects(catalog, other)
    requires row.kind != other.kind || row.name != other.name
    ensures Reflects(UpsertRow(catalog, row), other)
  {
    UpsertKeepsOtherKey(catalog, row, other.kind, other.name);
  }

  /** A row whose values are already in place is a no-op. */
  lemma UpsertReflected(catalog: seq<Violation>, row: SeedRow)
    requires Reflects(catalog, row)
    ensures UpsertRow(catalog, row) == catalog
  {
    var k := KeyIndex(catalog, row.kind, row.name).value;
    assert catalog[k].(fine := row.fine, ordinanceNo := row.ordinanceNo) == catalog[k];
  }

  lemma {:induction false} SeedAllKeepsReflects(catalog: seq<Violation>, rows: seq<SeedRow>, other: SeedRow)
    requires Reflects(catalog, other)
    requires forall i :: 0 <= i < |rows| ==> rows[i].kind != other.kind || rows[i].name != other.name
    ensures Reflects(SeedAll(catalog, rows), other)
    decreases |rows|
  {
    if rows != [] {
      UpsertKeepsReflects(catalog, rows[0], other);
      SeedAllKeepsReflects(UpsertRow(catalog, rows[0]), rows[1..], other);
    }
  }

  /** After seeding with distinct keys, every row's values are in the catalog. */
  lemma {:induction false} SeedAllReflects(catalog: seq<Violation>, rows: seq<SeedRow>)
    requires KeysDistinct(rows)
    ensures forall i :: 0 <= i < |rows| ==> Reflects(SeedAll(catalog, rows), rows[i])
    decreases |rows|
  {
    if rows != [] {
      var c1 := UpsertRow(catalog, rows[0]);
      UpsertReflects(catalog, rows[0]);
      assert forall i :: 1 <= i < |rows| ==> rows[i] == rows[1..][i - 1];
      SeedAllKeepsReflects(c1, rows[1..], rows[0]);
      SeedAllReflects(c1, rows[1..]);
    }
  }

  lemma {:induction false} SeedAllReflected(catalog: seq<Violation>, rows: seq<SeedRow>)
    requires forall i :: 0 <= i < |rows| ==> Reflects(catalog, rows[i])
    ensures SeedAll(catalog, rows) == catalog
    decreases |rows|
  {
    if rows != [] {
      UpsertReflected(catalog, rows[0]);
      SeedAllReflected(catalog, rows[1..]);
    }
  }

  /** Running the seeder twice gives the same catalog as running it once. */
  lemma SeedIdempotent(catalog: seq<Violation>)
    ensures SeedAll(SeedAll(catalog, Fixture()), Fixture()) == SeedAll(catalog, Fixture())
  {
    FixtureKeysDistinct();
    SeedAllReflects(catalog, Fixture());
    SeedAllReflected(SeedAll(catalog, Fixture()), Fixture());
  }

  /** The key of `v` is in none of the rows. */
  predicate NotListed(rows: seq<SeedRow>, v: Violation)
  {
    forall i :: 0 <= i < |rows| ==> rows[i].kind != v.kind || rows[i].name != v.name
  }

  /** Rows whose key is absent from the list stay where they are, unchanged; the
      catalog only grows. */
  lemma {:induction false} SeedAllUntouched(catalog: seq<Violation>, rows: seq<SeedRow>)
    ensures |SeedAll(catalog, rows)| >= |catalog|
    ensures forall k :: 0 <= k < |catalog| && NotListed(rows, catalog[k]) ==> SeedAll(catalog, rows)[k] == catalog[k]
    decreases |rows|
  {
    if rows != [] {
      var c1 := UpsertRow(catalog, rows[0]);
      UpsertRowSpec(catalog, rows[0]);
      SeedAllUntouched(c1, rows[1..]);
      forall k | 0 <= k < |catalog| && NotListed(rows, catalog[k])
        ensures SeedAll(catalog, rows)[k] == catalog[k]
      {
        assert rows[0].kind != catalog[k].kind || rows[0].name != catalog[k].name;
        assert c1[k] == catalog[k];
        assert forall i :: 0 <= i < |rows| - 1 ==> rows[1..][i] == rows[i + 1];
      }
    }
  }

  /** Seeding keys that are neither in the catalog nor repeated appends one row each. */
  lemma {:induction false} SeedAllFresh(catalog: seq<Violation>, rows: seq<SeedRow>)
    requires KeysDistinct(rows)
    requires forall i :: 0 <= i < |rows| ==> KeyIndex(catalog, rows[i].kind, rows[i].name).None?
    ensures |SeedAll(catalog, rows)| == |catalog| + |rows|
    decreases |rows|
  {
    if rows != [] {
      var c1 := UpsertRow(catalog, rows[0]);
      UpsertRowSpec(catalog, rows[0]);
      forall i | 0 <= i < |rows[1..]| ensures KeyIndex(c1, rows[1..][i].kind, rows[1..][i].name).None? {
        assert rows[1..][i] == rows[i + 1];
        UpsertKeepsOtherKey(catalog, rows[0], rows[i + 1].kind, rows[i + 1].name);
      }
      SeedAllFresh(c1, rows[1..]);
    }
  }

  /** Seeding an empty catalog gives exactly 40 rows. */
  lemma SeedEmptyCatalog()
    ensures |SeedAll([], Fixture())| == 40
  {
    FixtureKeysDistinct();
    FixtureCounts();
    SeedAllFresh([], Fixture());
  }
}
