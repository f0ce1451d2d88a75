/**
 * The rows the report reads from the datastore, and the WHERE-clause tests
 * its queries apply. Every column may be NULL, so every field is an Option;
 * dates are whole calendar days.
 */
module Records {
  import opened Options
  import opened Calendar
  import opened MonthRange

  /**
   * A row of `alfs`, `nursing_home` or `inpatient`. `facility` is the
   * `facility_name` column of `alfs` and the `facility` column elsewhere;
   * `dischargeKind` is `discharge_type` in `alfs` and `discharge_disposition`
   * in `nursing_home`; `admissionType` is read from `inpatient` only.
   */
  datatype Stay = Stay(
    memberId: Option<string>,
    facility: Option<string>,
    admissionType: Option<string>,
    admissionDate: Option<CalDate>,
    dischargeDate: Option<CalDate>,
    dischargeKind: Option<string>)

  /** A row of `authorizations`. */
  datatype Authorization = Authorization(
    memberId: Option<string>,
    vendor: Option<string>,
    serviceType: Option<string>,
    effectiveDate: Option<CalDate>,
    expirationDate: Option<CalDate>)

  /** A row of `infections`. */
  datatype Infection = Infection(
    memberId: Option<string>,
    whereAcquired: Option<string>,
    occurred: Option<CalDate>)

  /** A row of `wounds`. */
  datatype Wound = Wound(
    memberId: Option<string>,
    livingSituation: Option<string>,
    livingDetail: Option<string>,
    occurred: Option<CalDate>)

  /** The tables the report reads. */
  datatype Db = Db(
    alfs: seq<Stay>,
    nursingHome: seq<Stay>,
    inpatient: seq<Stay>,
    authorizations: seq<Authorization>,
    infections: seq<Infection>,
    wounds: seq<Wound>)

  const HospitalOrEr: string := "Hospital/ER"
  const AcuteOrPsychFacility: string := "Acute care hospital or psychiatric facility"
  const AdultDayCenter: string := "Adult Day Center Attendance"
  const AcuteHospital: string := "Acute Hospital"
  const PsychUnit: string := "Psych Unit / Facility"
  const AcquiredAtHospital: string := "Hospital"

  // A comparison with a NULL column is never true in a WHERE clause. The
  // queries combine comparisons with AND and OR only, so two-valued tests in
  // which NULL fails every comparison select the same rows as SQL does.

  /** `col >= bound`. */
  predicate OnOrAfter(v: Option<CalDate>, bound: CalDate)
  {
    v.Some? && AtOrBefore(bound, v.value)
  }

  /** `col <= bound`. */
  predicate OnOrBefore(v: Option<CalDate>, bound: CalDate)
  {
    v.Some? && AtOrBefore(v.value, bound)
  }

  /** `col BETWEEN first AND last`, both ends included. */
  predicate InWindow(v: Option<CalDate>, p: MonthPair)
  {
    OnOrAfter(v, p.first) && OnOrBefore(v, p.last)
  }

  /**
   * `(endCol >= first OR endCol IS NULL) AND startCol <= last`: an interval,
   * open-ended when `endCol` is NULL, that overlaps the window.
   */
  predicate Overlaps(startCol: Option<CalDate>, endCol: Option<CalDate>, p: MonthPair)
  {
    (OnOrAfter(endCol, p.first) || endCol.None?) && OnOrBefore(startCol, p.last)
  }
}
