/**
 * The facility universe: `SELECT DISTINCT(col) FROM table [filter]`, the
 * rows every monthly column is joined onto. The filter is fixed per table
 * and no date restriction applies.
 */
module Universe {
  import opened Options
  import opened Records
  import opened Metrics

  /** The tables whose key column forms a report's rows. */
  datatype Source = Alfs | NursingHome | Inpatient | Authorizations

  predicate NoDuplicates(xs: seq<Option<string>>)
  {
    forall i, j :: 0 <= i < j < |xs| ==> xs[i] != xs[j]
  }

  /** `SELECT DISTINCT`: each value once, in order of first appearance; NULL is one value. */
  function Distinct(xs: seq<Option<string>>): (r: seq<Option<string>>)
    ensures forall x :: x in r <==> x in xs
    ensures NoDuplicates(r)
  {
    if |xs| == 0 then []
    else
      var r := Distinct(xs[..|xs| - 1]);
      assert forall x :: x in xs <==> x in xs[..|xs| - 1] || x == xs[|xs| - 1] by {
        assert xs == xs[..|xs| - 1] + [xs[|xs| - 1]];
      }
      if xs[|xs| - 1] in r then r else r + [xs[|xs| - 1]]
  }

  /** An inpatient row of the universe filter: an acute hospital or psychiatric admission. */
  predicate HospitalAdmission(s: Stay)
  {
    s.admissionType == Some(AcuteHospital) || s.admissionType == Some(PsychUnit)
  }

  /** Whether a stay passes the universe filter of `src` (none for `alfs` and `nursing_home`). */
  predicate StayInUniverse(src: Source, s: Stay)
  {
    src == Inpatient ==> HospitalAdmission(s)
  }

  function StayKeys(src: Source, rows: seq<Stay>): (r: seq<Option<string>>)
    ensures forall k :: k in r <==> exists i :: 0 <= i < |rows| && rows[i].facility == k && StayInUniverse(src, rows[i])
  {
    if |rows| == 0 then []
    else
      var init := StayKeys(src, rows[..|rows| - 1]);
      var last := rows[|rows| - 1];
      assert forall i :: 0 <= i < |rows| - 1 ==> rows[..|rows| - 1][i] == rows[i];
      if StayInUniverse(src, last) then init + [last.facility] else init
  }

  function VendorKeys(rows: seq<Authorization>): (r: seq<Option<string>>)
    ensures forall k :: k in r <==>
      exists i :: 0 <= i < |rows| && rows[i].vendor == k && rows[i].serviceType == Some(AdultDayCenter)
  {
    if |rows| == 0 then []
    else
      var init := VendorKeys(rows[..|rows| - 1]);
      var last := rows[|rows| - 1];
      assert forall i :: 0 <= i < |rows| - 1 ==> rows[..|rows| - 1][i] == rows[i];
      if last.serviceType == Some(AdultDayCenter) then init + [last.vendor] else init
  }

  /** The value belongs to the universe of `src`: some row passing the table's filter carries it. */
  ghost predicate InUniverse(src: Source, db: Db, k: Option<string>)
  {
    match src
    case Authorizations =>
      exists i :: 0 <= i < |db.authorizations| && db.authorizations[i].vendor == k
                  && db.authorizations[i].serviceType == Some(AdultDayCenter)
    case Inpatient =>
      exists i :: 0 <= i < |db.inpatient| && db.inpatient[i].facility == k && HospitalAdmission(db.inpatient[i])
    case Alfs =>
      exists i :: 0 <= i < |db.alfs| && db.alfs[i].facility == k
    case NursingHome =>
      exists i :: 0 <= i < |db.nursingHome| && db.nursingHome[i].facility == k
  }

  /** The distinct key values of `src` under its fixed filter, NULL included; nothing else. */
  function FacilityUniverse(src: Source, db: Db): (r: seq<Option<string>>)
    ensures NoDuplicates(r)
    ensures forall k :: k in r <==> InUniverse(src, db, k)
  {
    match src
    case Authorizations => Distinct(VendorKeys(db.authorizations))
    case Inpatient => Distinct(StayKeys(Inpatient, db.inpatient))
    case Alfs => Distinct(StayKeys(Alfs, db.alfs))
    case NursingHome => Distinct(StayKeys(NursingHome, db.nursingHome))
  }

  function DetailKeys(facilityType: string, rows: seq<Wound>): (r: seq<Option<string>>)
    ensures forall k :: k in r <==>
      exists i :: 0 <= i < |rows| && rows[i].livingDetail == k && rows[i].livingSituation == Some(facilityType)
  {
    if |rows| == 0 then []
    else
      var init := DetailKeys(facilityType, rows[..|rows| - 1]);
      var last := rows[|rows| - 1];
      assert forall i :: 0 <= i < |rows| - 1 ==> rows[..|rows| - 1][i] == rows[i];
      if last.livingSituation == Some(facilityType) then init + [last.livingDetail] else init
  }

  /**
   * The rows of a pressure-ulcer report: the distinct `living_detail` values
   * of the facility type's wounds, with NULL replaced by "Unknown".
   */
  function WoundUniverse(facilityType: string, db: Db): (r: seq<Option<string>>)
    ensures forall i :: 0 <= i < |r| ==> r[i].Some?
    ensures forall k :: Some(k) in r <==>
      exists i :: 0 <= i < |db.wounds| && DetailKey(db.wounds[i]) == k
                  && db.wounds[i].livingSituation == Some(facilityType)
  {
    var d := Distinct(DetailKeys(facilityType, db.wounds));
    var r := seq(|d|, i requires 0 <= i < |d| => Some(d[i].GetOr(UnknownDetail)));
    forall k | exists i :: 0 <= i < |db.wounds| && DetailKey(db.wounds[i]) == k
                          && db.wounds[i].livingSituation == Some(facilityType)
      ensures Some(k) in r
    {
      var i :| 0 <= i < |db.wounds| && DetailKey(db.wounds[i]) == k
               && db.wounds[i].livingSituation == Some(facilityType);
      assert db.wounds[i].livingDetail in d;
      var j :| 0 <= j < |d| && d[j] == db.wounds[i].livingDetail;
      assert r[j] == Some(k);
    }
    forall k | Some(k) in r
      ensures exists i :: 0 <= i < |db.wounds| && DetailKey(db.wounds[i]) == k
                          && db.wounds[i].livingSituation == Some(facilityType)
    {
      var j :| 0 <= j < |r| && r[j] == Some(k);
      assert d[j] in DetailKeys(facilityType, db.wounds);
      var i :| 0 <= i < |db.wounds| && db.wounds[i].livingDetail == d[j]
               && db.wounds[i].livingSituation == Some(facilityType);
      assert DetailKey(db.wounds[i]) == k;
    }
    r
  }
}
