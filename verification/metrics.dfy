/**
 * The monthly metrics: each filters one table with its WHERE clause for a
 * window, counts the kept rows per key, and names the count column after the
 * window. The two 30-day metrics receive their rows ready-made.
 */
module Metrics {
  import opened Options
  import opened Calendar
  import opened IsoDate
  import opened MonthRange
  import opened Records
  import opened Aggregate

  /** The WHERE clauses the stay-table metrics use. */
  datatype StayTest =
    | ActiveDuring                     // residency overlapping the window
    | DischargedDuring(kind: string)   // discharged inside the window to `kind`
    | AdmittedDuring                   // admitted inside the window
    | EveryRow                         // no filter: the row set is given

  predicate Keeps(t: StayTest, s: Stay, p: MonthPair)
  {
    match t
    case ActiveDuring => Overlaps(s.admissionDate, s.dischargeDate, p)
    case DischargedDuring(kind) => InWindow(s.dischargeDate, p) && s.dischargeKind == Some(kind)
    case AdmittedDuring => InWindow(s.admissionDate, p)
    case EveryRow => true
  }

  /**
   * `f` holds one entry per facility with a row that passes `t`, and that
   * entry counts the passing rows of the facility whose member id is not null.
   */
  ghost predicate CountsStays(f: Frame, rows: seq<Stay>, t: StayTest, p: MonthPair)
  {
    && (forall k :: k in f.cells <==>
          exists i :: 0 <= i < |rows| && rows[i].facility == Some(k) && Keeps(t, rows[i], p))
    && (forall k :: k in f.cells ==>
          f.cells[k] == Count(|set i | 0 <= i < |rows| && rows[i].facility == Some(k)
                                        && rows[i].memberId.Some? && Keeps(t, rows[i], p)|))
  }

  /** The query, group count and rename shared by the stay-table metrics. */
  function StayFrame(rows: seq<Stay>, t: StayTest, p: MonthPair, column: string): (f: Frame)
    ensures f.column == column
    ensures CountsStays(f, rows, t, p)
  {
    var ts := seq(|rows|, i requires 0 <= i < |rows| =>
      Tally(rows[i].facility, rows[i].memberId, Keeps(t, rows[i], p)));
    StayTallyView(rows, t, p, ts);
    CountFrame(column, GroupCount(ts))
  }

  /** `prefix` followed by the `YYYY-MM` of the window: `f"{prefix}{params[0][:7]}"`. */
  function MonthColumn(prefix: string, p: MonthPair): (c: string)
    ensures c == prefix + YearMonth(p.first)
  {
    TakeSevenIsYearMonth(p.first);
    prefix + Take(Format(p.first), 7)
  }

  /** `prefix` followed by the whole first day of the window: `f"{prefix}{params[0]}"`. */
  function DayColumn(prefix: string, p: MonthPair): (c: string)
    ensures |c| == |prefix| + 10 && c[..|prefix|] == prefix
    ensures Parse(c[|prefix|..]) == Some(p.first)
  {
    ParseFormat(p.first);
    assert (prefix + Format(p.first))[|prefix|..] == Format(p.first);
    prefix + Format(p.first)
  }

  /** Residents of each ALF (`facility_name`) whose stay overlaps the window. */
  function AlfCensusOnDate(db: Db, p: MonthPair): (r: Frame)
    ensures r.column == "census-" + YearMonth(p.first)
    ensures CountsStays(r, db.alfs, ActiveDuring, p)
  {
    StayFrame(db.alfs, ActiveDuring, p, MonthColumn("census-", p))
  }

  /** ALF discharges to `Hospital/ER` inside the window, per ALF. */
  function AlfToHosp(db: Db, p: MonthPair): (r: Frame)
    ensures |r.column| == 22 && r.column[..12] == "hosp_admits-" && Parse(r.column[12..]) == Some(p.first)
    ensures CountsStays(r, db.alfs, DischargedDuring(HospitalOrEr), p)
  {
    StayFrame(db.alfs, DischargedDuring(HospitalOrEr), p, DayColumn("hosp_admits-", p))
  }

  /**
   * The nursing-facility census. Its query reads `inpatient`, not
   * `nursing_home`, although its report's rows come from `nursing_home`.
   */
  function NfCensusOnDate(db: Db, p: MonthPair): (r: Frame)
    ensures r.column == "census-" + YearMonth(p.first)
    ensures CountsStays(r, db.inpatient, ActiveDuring, p)
  {
    StayFrame(db.inpatient, ActiveDuring, p, MonthColumn("census-", p))
  }

  /** Nursing-facility discharges to an acute or psychiatric hospital inside the window. */
  function NfToHosp(db: Db, p: MonthPair): (r: Frame)
    ensures |r.column| == 22 && r.column[..12] == "hosp_admits-" && Parse(r.column[12..]) == Some(p.first)
    ensures CountsStays(r, db.nursingHome, DischargedDuring(AcuteOrPsychFacility), p)
  {
    StayFrame(db.nursingHome, DischargedDuring(AcuteOrPsychFacility), p, DayColumn("hosp_admits-", p))
  }

  /** Inpatient admissions inside the window, per hospital. */
  function HospAdmissions(db: Db, p: MonthPair): (r: Frame)
    ensures r.column == "admissions-" + YearMonth(p.first)
    ensures CountsStays(r, db.inpatient, AdmittedDuring, p)
  {
    StayFrame(db.inpatient, AdmittedDuring, p, MonthColumn("admissions-", p))
  }

  /** Count per hospital of the admissions that lead to a 30-day readmission (rows given). */
  function Resulting30DayHospCount(admissions: seq<Stay>, p: MonthPair): (r: Frame)
    ensures r.column == "results_in_30dr-" + YearMonth(p.first)
    ensures CountsStays(r, admissions, EveryRow, p)
  {
    StayFrame(admissions, EveryRow, p, MonthColumn("results_in_30dr-", p))
  }

  /** Count per hospital of the admissions that are 30-day readmissions (rows given). */
  function Readmit30DayHospCount(readmissions: seq<Stay>, p: MonthPair): (r: Frame)
    ensures r.column == "30dr-" + YearMonth(p.first)
    ensures CountsStays(r, readmissions, EveryRow, p)
  {
    StayFrame(readmissions, EveryRow, p, MonthColumn("30dr-", p))
  }

  /** An adult day center authorization in force during some of the window. */
  predicate AdcActive(a: Authorization, p: MonthPair)
  {
    a.serviceType == Some(AdultDayCenter) && Overlaps(a.effectiveDate, a.expirationDate, p)
  }

  /** Participants per adult day center (`vendor`) with an authorization in force in the window. */
  function AdcCensusOnDate(db: Db, p: MonthPair): (r: Frame)
    ensures r.column == "adc_census-" + YearMonth(p.first)
    ensures forall k :: k in r.cells <==>
      exists i :: 0 <= i < |db.authorizations| && db.authorizations[i].vendor == Some(k)
                  && AdcActive(db.authorizations[i], p)
    ensures forall k :: k in r.cells ==>
      r.cells[k] == Count(|set i | 0 <= i < |db.authorizations| && db.authorizations[i].vendor == Some(k)
                                    && db.authorizations[i].memberId.Some? && AdcActive(db.authorizations[i], p)|)
  {
    var rows := db.authorizations;
    var ts := seq(|rows|, i requires 0 <= i < |rows| =>
      Tally(rows[i].vendor, rows[i].memberId, AdcActive(rows[i], p)));
    AuthorizationTallyView(rows, p, ts);
    CountFrame(MonthColumn("adc_census-", p), GroupCount(ts))
  }

  const UnknownDetail: string := "Unknown"

  /** A wound at a `facilityType` residence that occurred inside the window. */
  predicate WoundInWindow(facilityType: string, w: Wound, p: MonthPair)
  {
    w.livingSituation == Some(facilityType) && InWindow(w.occurred, p)
  }

  /**
   * The pressure-ulcer column name. The query parameters are rebound to
   * `[facility_type, first, last]` before the name is built, so the name
   * repeats the facility type where the month would be expected.
   */
  function PulcerColumn(facilityType: string): string
  {
    facilityType + "_pulcers-" + Take(facilityType, 7)
  }

  /**
   * Pressure ulcers per `living_detail`, as the code computes them: the group
   * count drops wounds whose detail is NULL, so the NULL-to-"Unknown" fill
   * applied afterwards never finds a NULL key.
   */
  function PressureUlcersAsWritten(facilityType: string, db: Db, p: MonthPair): (r: Frame)
    ensures r.column == PulcerColumn(facilityType)
    ensures forall k :: k in r.cells <==>
      exists i :: 0 <= i < |db.wounds| && db.wounds[i].livingDetail == Some(k)
                  && WoundInWindow(facilityType, db.wounds[i], p)
    ensures forall k :: k in r.cells ==>
      r.cells[k] == Count(|set i | 0 <= i < |db.wounds| && db.wounds[i].livingDetail == Some(k)
                                    && db.wounds[i].memberId.Some? && WoundInWindow(facilityType, db.wounds[i], p)|)
  {
    var rows := db.wounds;
    var ts := seq(|rows|, i requires 0 <= i < |rows| =>
      Tally(rows[i].livingDetail, rows[i].memberId, WoundInWindow(facilityType, rows[i], p)));
    WoundTallyViewAsWritten(rows, facilityType, p, ts);
    CountFrame(PulcerColumn(facilityType), GroupCount(ts))
  }

  /** The residence detail a wound is reported under: NULL becomes "Unknown". */
  function DetailKey(w: Wound): string
  {
    w.livingDetail.GetOr(UnknownDetail)
  }

  /**
   * Pressure ulcers per `living_detail` with NULL details counted under
   * "Unknown", as the fill after the group count intends: every wound of the
   * window with a member id is counted under exactly one key.
   */
  function PressureUlcersAtFacility(facilityType: string, db: Db, p: MonthPair): (r: Frame)
    ensures r.column == PulcerColumn(facilityType)
    ensures forall k :: k in r.cells <==>
      exists i :: 0 <= i < |db.wounds| && DetailKey(db.wounds[i]) == k
                  && WoundInWindow(facilityType, db.wounds[i], p)
    ensures forall k :: k in r.cells ==>
      r.cells[k] == Count(|set i | 0 <= i < |db.wounds| && DetailKey(db.wounds[i]) == k
                                    && db.wounds[i].memberId.Some? && WoundInWindow(facilityType, db.wounds[i], p)|)
  {
    var rows := db.wounds;
    var ts := seq(|rows|, i requires 0 <= i < |rows| =>
      Tally(Some(DetailKey(rows[i])), rows[i].memberId, WoundInWindow(facilityType, rows[i], p)));
    WoundTallyView(rows, facilityType, p, ts);
    CountFrame(PulcerColumn(facilityType), GroupCount(ts))
  }

  /**
   * A wound with no `living_detail` in the window: the code reports nothing
   * for it, so the "Unknown" row of the report stays 0, while the intended
   * count puts it under "Unknown".
   */
  lemma {:induction false} NullDetailDroppedAsWritten()
    ensures var p := MonthPair(Date(2024, 1, 1), Date(2024, 1, 31));
            var db := Db([], [], [], [], [], [Wound(Some("m1"), Some("SNF"), None, Some(Date(2024, 1, 15)))]);
            && UnknownDetail !in PressureUlcersAsWritten("SNF", db, p).cells
            && PressureUlcersAtFacility("SNF", db, p).cells[UnknownDetail] == Count(1)
  {
    var p := MonthPair(Date(2024, 1, 1), Date(2024, 1, 31));
    var w := Wound(Some("m1"), Some("SNF"), None, Some(Date(2024, 1, 15)));
    var db := Db([], [], [], [], [], [w]);
    assert WoundInWindow("SNF", w, p) && DetailKey(w) == UnknownDetail;
    assert (set i | 0 <= i < |db.wounds| && DetailKey(db.wounds[i]) == UnknownDetail
                    && db.wounds[i].memberId.Some? && WoundInWindow("SNF", db.wounds[i], p)) == {0};
  }

  /** Month-stamped column names of different months differ, so no two windows collide. */
  lemma {:induction false} MonthColumnsDistinct(prefix: string, p: MonthPair, q: MonthPair)
    requires p.first.year != q.first.year || p.first.month != q.first.month
    ensures MonthColumn(prefix, p) != MonthColumn(prefix, q)
  {
    if MonthColumn(prefix, p) == MonthColumn(prefix, q) {
      assert MonthColumn(prefix, p)[|prefix|..] == YearMonth(p.first);
      assert MonthColumn(prefix, q)[|prefix|..] == YearMonth(q.first);
      YearMonthInjective(p.first, q.first);
    }
  }

  /**
   * The pressure-ulcer column repeats the facility type where a month stamp
   * would be expected: `SNF_pulcers-SNF` for the skilled nursing report.
   */
  lemma PulcerColumnSnf()
    ensures PulcerColumn("SNF") == "SNF_pulcers-SNF"
  {
    PulcerColumnOf("SNF", "SNF");
  }

  /** A facility type longer than seven characters is cut to its first seven after the dash. */
  lemma PulcerColumnTruncates()
    ensures PulcerColumn("Hospital") == "Hospital_pulcers-Hospita"
  {
    PulcerColumnOf("Hospital", "Hospita");
  }

  /** The column for a type whose first seven characters are `head`. */
  lemma PulcerColumnOf(facilityType: string, head: string)
    requires head == Take(facilityType, 7)
    ensures PulcerColumn(facilityType) == facilityType + "_pulcers-" + head
  {
  }

  // What the group count of a table's tallies says about the table's rows.

  lemma StayTallyView(rows: seq<Stay>, t: StayTest, p: MonthPair, ts: seq<Tally>)
    requires |ts| == |rows|
    requires forall i :: 0 <= i < |rows| ==> ts[i] == Tally(rows[i].facility, rows[i].memberId, Keeps(t, rows[i], p))
    ensures forall k :: HasGroup(ts, k) <==>
      exists i :: 0 <= i < |rows| && rows[i].facility == Some(k) && Keeps(t, rows[i], p)
    ensures forall k :: Counted(ts, k) == set i | 0 <= i < |rows| && rows[i].facility == Some(k)
                                                 && rows[i].memberId.Some? && Keeps(t, rows[i], p)
  {
    forall k | exists i :: 0 <= i < |rows| && rows[i].facility == Some(k) && Keeps(t, rows[i], p)
      ensures HasGroup(ts, k)
    {
      var i :| 0 <= i < |rows| && rows[i].facility == Some(k) && Keeps(t, rows[i], p);
      assert ts[i].kept && ts[i].key == Some(k);
    }
  }

  lemma AuthorizationTallyView(rows: seq<Authorization>, p: MonthPair, ts: seq<Tally>)
    requires |ts| == |rows|
    requires forall i :: 0 <= i < |rows| ==> ts[i] == Tally(rows[i].vendor, rows[i].memberId, AdcActive(rows[i], p))
    ensures forall k :: HasGroup(ts, k) <==>
      exists i :: 0 <= i < |rows| && rows[i].vendor == Some(k) && AdcActive(rows[i], p)
    ensures forall k :: Counted(ts, k) == set i | 0 <= i < |rows| && rows[i].vendor == Some(k)
                                                 && rows[i].memberId.Some? && AdcActive(rows[i], p)
  {
    forall k | exists i :: 0 <= i < |rows| && rows[i].vendor == Some(k) && AdcActive(rows[i], p)
      ensures HasGroup(ts, k)
    {
      var i :| 0 <= i < |rows| && rows[i].vendor == Some(k) && AdcActive(rows[i], p);
      assert ts[i].kept && ts[i].key == Some(k);
    }
  }

  lemma WoundTallyViewAsWritten(rows: seq<Wound>, facilityType: string, p: MonthPair, ts: seq<Tally>)
    requires |ts| == |rows|
    requires forall i :: 0 <= i < |rows| ==>
      ts[i] == Tally(rows[i].livingDetail, rows[i].memberId, WoundInWindow(facilityType, rows[i], p))
    ensures forall k :: HasGroup(ts, k) <==>
      exists i :: 0 <= i < |rows| && rows[i].livingDetail == Some(k) && WoundInWindow(facilityType, rows[i], p)
    ensures forall k :: Counted(ts, k) == set i | 0 <= i < |rows| && rows[i].livingDetail == Some(k)
                                                 && rows[i].memberId.Some? && WoundInWindow(facilityType, rows[i], p)
  {
    forall k | exists i :: 0 <= i < |rows| && rows[i].livingDetail == Some(k) && WoundInWindow(facilityType, rows[i], p)
      ensures HasGroup(ts, k)
    {
      var i :| 0 <= i < |rows| && rows[i].livingDetail == Some(k) && WoundInWindow(facilityType, rows[i], p);
      assert ts[i].kept && ts[i].key == Some(k);
    }
  }

  lemma WoundTallyView(rows: seq<Wound>, facilityType: string, p: MonthPair, ts: seq<Tally>)
    requires |ts| == |rows|
    requires forall i :: 0 <= i < |rows| ==>
      ts[i] == Tally(Some(DetailKey(rows[i])), rows[i].memberId, WoundInWindow(facilityType, rows[i], p))
    ensures forall k :: HasGroup(ts, k) <==>
      exists i :: 0 <= i < |rows| && DetailKey(rows[i]) == k && WoundInWindow(facilityType, rows[i], p)
    ensures forall k :: Counted(ts, k) == set i | 0 <= i < |rows| && DetailKey(rows[i]) == k
                                                 && rows[i].memberId.Some? && WoundInWindow(facilityType, rows[i], p)
  {
    forall k | exists i :: 0 <= i < |rows| && DetailKey(rows[i]) == k && WoundInWindow(facilityType, rows[i], p)
      ensures HasGroup(ts, k)
    {
      var i :| 0 <= i < |rows| && DetailKey(rows[i]) == k && WoundInWindow(facilityType, rows[i], p);
      assert ts[i].kept && ts[i].key == Some(k);
    }
  }
}
