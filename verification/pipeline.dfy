/**
 * The report builders: a monthly metric is evaluated for every month-end
 * window of the run, each month's frame is left-joined onto the table's key
 * universe with absent keys filled with 0, and the rows are sorted by key.
 */
module Pipeline {
  import opened Options
  import opened Calendar
  import opened MonthRange
  import opened Records
  import opened Aggregate
  import opened Metrics
  import opened Universe
  import opened Spread
  import opened Proximity

  /** Keys equal as multisets to a duplicate-free sequence are that sequence's keys, each once. */
  lemma {:induction false} SameKeysOnce(ks: seq<Option<string>>, universe: seq<Option<string>>)
    requires multiset(ks) == multiset(universe)
    requires NoDuplicates(universe)
    ensures NoDuplicates(ks)
    ensures forall k :: k in ks <==> k in universe
  {
    forall k
      ensures k in ks <==> k in universe
    {
      assert k in ks <==> k in multiset(ks);
      assert k in universe <==> k in multiset(universe);
    }
    forall i, j | 0 <= i < j < |ks|
      ensures ks[i] != ks[j]
    {
      if ks[i] == ks[j] {
        var x := ks[i];
        assert multiset(ks) == multiset(ks[..j]) + multiset(ks[j..]) by {
          assert ks == ks[..j] + ks[j..];
        }
        assert x in ks[..j] && x in ks[j..] by {
          assert ks[..j][i] == x && ks[j..][0] == x;
        }
        assert multiset(ks)[x] >= 2;
        OccursOnce(universe, x);
      }
    }
  }

  /** A value of a duplicate-free sequence occurs in it at most once. */
  lemma {:induction false} OccursOnce(xs: seq<Option<string>>, x: Option<string>)
    requires NoDuplicates(xs)
    ensures multiset(xs)[x] <= 1
  {
    if |xs| > 0 {
      var t := xs[1..];
      assert xs == [xs[0]] + t;
      assert NoDuplicates(t) by {
        forall i, j | 0 <= i < j < |t|
          ensures t[i] != t[j]
        {
          assert t[i] == xs[i + 1] && t[j] == xs[j + 1];
        }
      }
      OccursOnce(t, x);
      if xs[0] == x {
        assert x !in t;
      }
    }
  }

  /** The frames of a metric, one per window, in window order. */
  function Frames(metric: MonthPair -> Frame, windows: seq<MonthPair>): (fs: seq<Frame>)
    ensures |fs| == |windows| && forall j :: 0 <= j < |windows| ==> fs[j] == metric(windows[j])
  {
    seq(|windows|, j requires 0 <= j < |windows| => metric(windows[j]))
  }

  /**
   * Every row has one cell per window, and the cell of window `j` is the
   * value window `j`'s frame gives the row's key, 0 when the frame lacks it.
   */
  ghost predicate CellsFrom(g: Grid, metric: MonthPair -> Frame, windows: seq<MonthPair>)
  {
    && (forall i :: 0 <= i < |g.rows| ==> |g.rows[i].cells| == |windows|)
    && (forall i, j :: 0 <= i < |g.rows| && 0 <= j < |windows| ==>
          g.rows[i].cells[j] == CellFor(metric(windows[j]), g.rows[i].key))
  }

  /** The spread of a metric's frames carries, in every cell, the frame's value for the row's key. */
  lemma SpreadCellsFrom(universe: seq<Option<string>>, metric: MonthPair -> Frame, windows: seq<MonthPair>)
    ensures CellsFrom(BuildSpread(universe, Frames(metric, windows)), metric, windows)
  {
  }

  /**
   * `build_csv_date_spread(func, table, ...)`: one row for every distinct key
   * of `table` under its fixed filter, each exactly once and in key order,
   * and one column per month-end in [start, end], named by the month's frame,
   * holding that month's value of `metric` for the key, 0 when the month's
   * frame lacks the key.
   */
  function BuildCsvDateSpread(metric: MonthPair -> Frame, table: Source, db: Db, start: CalDate, end: CalDate): (g: Grid)
    ensures |g.columns| == |MonthPairs(start, end)|
    ensures forall j :: 0 <= j < |g.columns| ==> g.columns[j] == metric(MonthPairs(start, end)[j]).column
    ensures NoDuplicates(Keys(g.rows))
    ensures forall k :: k in Keys(g.rows) <==> InUniverse(table, db, k)
    ensures SortedByKey(g.rows)
    ensures CellsFrom(g, metric, MonthPairs(start, end))
  {
    var universe := FacilityUniverse(table, db);
    var windows := MonthPairs(start, end);
    var g := BuildSpread(universe, Frames(metric, windows));
    SameKeysOnce(Keys(g.rows), universe);
    SpreadCellsFrom(universe, metric, windows);
    g
  }

  /** The column names of a month-stamped metric: no two month-ends of a run share one. */
  lemma {:induction false} MonthStampedColumnsDistinct(
    prefix: string, metric: MonthPair -> Frame, table: Source, db: Db, start: CalDate, end: CalDate)
    requires forall p :: metric(p).column == MonthColumn(prefix, p)
    ensures var g := BuildCsvDateSpread(metric, table, db, start, end);
      forall a, b :: 0 <= a < b < |g.columns| ==> g.columns[a] != g.columns[b]
  {
    var g := BuildCsvDateSpread(metric, table, db, start, end);
    var windows := MonthPairs(start, end);
    forall a, b | 0 <= a < b < |g.columns|
      ensures g.columns[a] != g.columns[b]
    {
      var p, q := windows[a], windows[b];
      assert Before(p.last, q.last);
      MonthIndexOrder(p.last, q.last);
      assert p.first.year == p.last.year && p.first.month == p.last.month;
      assert q.first.year == q.last.year && q.first.month == q.last.month;
      MonthColumnsDistinct(prefix, p, q);
    }
  }

  // ---------------------------------------------------------------------
  // Cells of the stay-table reports

  /** The rows of `rows` under key `key` with a member id that pass `t` in window `p`. */
  ghost function StayCount(rows: seq<Stay>, t: StayTest, p: MonthPair, key: Option<string>): nat
  {
    |set i | 0 <= i < |rows| && key.Some? && rows[i].facility == key && rows[i].memberId.Some? && Keeps(t, rows[i], p)|
  }

  /** A frame that counts stays gives every key its count of passing rows, 0 for NULL and absent keys. */
  lemma StayCell(f: Frame, rows: seq<Stay>, t: StayTest, p: MonthPair, key: Option<string>)
    requires CountsStays(f, rows, t, p)
    ensures CellFor(f, key) == Count(StayCount(rows, t, p, key))
  {
    var s := set i | 0 <= i < |rows| && key.Some? && rows[i].facility == key && rows[i].memberId.Some? && Keeps(t, rows[i], p);
    if key.Some? && key.value in f.cells {
      assert s == set i | 0 <= i < |rows| && rows[i].facility == Some(key.value)
                            && rows[i].memberId.Some? && Keeps(t, rows[i], p);
    } else {
      assert s == {};
    }
  }

  /**
   * A spread of frames that count stays: each cell is the number of rows
   * passing the filter in its column's month under its row's key.
   */
  lemma {:induction false} StayCells(
    g: Grid, metric: MonthPair -> Frame, windows: seq<MonthPair>, rowsOf: MonthPair -> seq<Stay>, t: StayTest)
    requires CellsFrom(g, metric, windows)
    requires forall p :: CountsStays(metric(p), rowsOf(p), t, p)
    ensures forall i, j :: 0 <= i < |g.rows| && 0 <= j < |windows| ==>
      g.rows[i].cells[j] == Count(StayCount(rowsOf(windows[j]), t, windows[j], g.rows[i].key))
  {
    forall i, j | 0 <= i < |g.rows| && 0 <= j < |windows|
      ensures g.rows[i].cells[j] == Count(StayCount(rowsOf(windows[j]), t, windows[j], g.rows[i].key))
    {
      StayCell(metric(windows[j]), rowsOf(windows[j]), t, windows[j], g.rows[i].key);
    }
  }

  /** The monthly metrics over stay rows. */
  datatype StayMetric =
    | AlfCensus
    | AlfToHospital
    | NfCensus
    | NfToHospital
    | HospitalAdmissions
    | ResultingReadmission
    | ThirtyDayReadmission

  /**
   * The admissions that lead to a 30-day readmission and the 30-day
   * readmissions of a window, as the utilisation helpers return them.
   */
  datatype ThirtyDay = ThirtyDay(resulting: MonthPair -> seq<Stay>, readmits: MonthPair -> seq<Stay>)

  /** The frame a stay metric produces for one window. */
  function StayMetricFrame(m: StayMetric, db: Db, thirty: ThirtyDay, p: MonthPair): Frame
  {
    match m
    case AlfCensus => AlfCensusOnDate(db, p)
    case AlfToHospital => AlfToHosp(db, p)
    case NfCensus => NfCensusOnDate(db, p)
    case NfToHospital => NfToHosp(db, p)
    case HospitalAdmissions => HospAdmissions(db, p)
    case ResultingReadmission => Resulting30DayHospCount(thirty.resulting(p), p)
    case ThirtyDayReadmission => Readmit30DayHospCount(thirty.readmits(p), p)
  }

  /** The table the run spreads a stay metric over. */
  function StayTable(m: StayMetric): Source
  {
    match m
    case AlfCensus => Alfs
    case AlfToHospital => Alfs
    case NfCensus => NursingHome
    case NfToHospital => NursingHome
    case _ => Inpatient
  }

  /** The stay rows a stay metric filters for a window. */
  function StayRowsOf(m: StayMetric, db: Db, thirty: ThirtyDay, p: MonthPair): seq<Stay>
  {
    match m
    case AlfCensus => db.alfs
    case AlfToHospital => db.alfs
    case NfCensus => db.inpatient
    case NfToHospital => db.nursingHome
    case HospitalAdmissions => db.inpatient
    case ResultingReadmission => thirty.resulting(p)
    case ThirtyDayReadmission => thirty.readmits(p)
  }

  /** The filter a stay metric applies. */
  function StayTestOf(m: StayMetric): StayTest
  {
    match m
    case AlfCensus => ActiveDuring
    case AlfToHospital => DischargedDuring(HospitalOrEr)
    case NfCensus => ActiveDuring
    case NfToHospital => DischargedDuring(AcuteOrPsychFacility)
    case HospitalAdmissions => AdmittedDuring
    case _ => EveryRow
  }

  /** The report of a stay metric, as the run builds it. */
  function StayReport(m: StayMetric, db: Db, thirty: ThirtyDay, start: CalDate, end: CalDate): Grid
  {
    BuildCsvDateSpread(p => StayMetricFrame(m, db, thirty, p), StayTable(m), db, start, end)
  }

  /** Every stay metric's frame counts the rows of its table that pass its filter. */
  lemma StayMetricCounts(m: StayMetric, db: Db, thirty: ThirtyDay, p: MonthPair)
    ensures CountsStays(StayMetricFrame(m, db, thirty, p), StayRowsOf(m, db, thirty, p), StayTestOf(m), p)
  {
  }

  lemma StayMetricCountsAll(m: StayMetric, db: Db, thirty: ThirtyDay)
    ensures forall p :: CountsStays(StayMetricFrame(m, db, thirty, p), StayRowsOf(m, db, thirty, p), StayTestOf(m), p)
  {
    forall p
      ensures CountsStays(StayMetricFrame(m, db, thirty, p), StayRowsOf(m, db, thirty, p), StayTestOf(m), p)
    {
      StayMetricCounts(m, db, thirty, p);
    }
  }

  /**
   * The stay reports: one row per key of the metric's table, and each cell
   * the number of that month's rows under the key, with a member id, that
   * pass the metric's filter; 0 for a key with no such row.
   */
  lemma {:induction false} StayReportCells(m: StayMetric, db: Db, thirty: ThirtyDay, start: CalDate, end: CalDate)
    ensures var g := StayReport(m, db, thirty, start, end);
      var windows := MonthPairs(start, end);
      && (forall k :: k in Keys(g.rows) <==> InUniverse(StayTable(m), db, k))
      && (forall i, j :: 0 <= i < |g.rows| && 0 <= j < |windows| ==>
            g.rows[i].cells[j] == Count(StayCount(StayRowsOf(m, db, thirty, windows[j]), StayTestOf(m), windows[j], g.rows[i].key)))
  {
    StayMetricCountsAll(m, db, thirty);
    StayCells(StayReport(m, db, thirty, start, end), p => StayMetricFrame(m, db, thirty, p), MonthPairs(start, end),
              p => StayRowsOf(m, db, thirty, p), StayTestOf(m));
  }

  /** No rows, no count. */
  lemma NoRowsNoCount(rows: seq<Stay>, t: StayTest, p: MonthPair, key: Option<string>)
    requires rows == []
    ensures StayCount(rows, t, p, key) == 0
  {
    assert (set n | 0 <= n < |rows| && key.Some? && rows[n].facility == key
                    && rows[n].memberId.Some? && Keeps(t, rows[n], p)) == {};
  }

  /** With no inpatient rows, every cell of a nursing-facility census spread is 0. */
  lemma {:induction false} NfCensusCellsZero(g: Grid, db: Db, thirty: ThirtyDay, windows: seq<MonthPair>)
    requires db.inpatient == []
    requires CellsFrom(g, p => StayMetricFrame(NfCensus, db, thirty, p), windows)
    ensures forall i, j :: 0 <= i < |g.rows| && 0 <= j < |windows| ==> g.rows[i].cells[j] == Count(0)
  {
    forall i, j | 0 <= i < |g.rows| && 0 <= j < |windows|
      ensures g.rows[i].cells[j] == Count(0)
    {
      StayCell(NfCensusOnDate(db, windows[j]), db.inpatient, ActiveDuring, windows[j], g.rows[i].key);
      NoRowsNoCount(db.inpatient, ActiveDuring, windows[j], g.rows[i].key);
    }
  }

  /**
   * The nursing-facility census counts `inpatient` stays against the keys of
   * `nursing_home`: with no inpatient rows every cell is 0, however many
   * residents the nursing facilities have.
   */
  lemma {:induction false} NfCensusReadsInpatient(db: Db, thirty: ThirtyDay, start: CalDate, end: CalDate)
    requires db.inpatient == []
    ensures var g := StayReport(NfCensus, db, thirty, start, end);
      && (forall k :: k in Keys(g.rows) <==> InUniverse(NursingHome, db, k))
      && (forall i, j :: 0 <= i < |g.rows| && 0 <= j < |MonthPairs(start, end)| ==> g.rows[i].cells[j] == Count(0))
  {
    NfCensusCellsZero(StayReport(NfCensus, db, thirty, start, end), db, thirty, MonthPairs(start, end));
  }

  // ---------------------------------------------------------------------
  // Cells of the adult day center report

  /** The authorizations of `key` with a member id that are adult day center attendance in force in `p`. */
  ghost function VendorCount(rows: seq<Authorization>, p: MonthPair, key: Option<string>): nat
  {
    |set i | 0 <= i < |rows| && key.Some? && rows[i].vendor == key && rows[i].memberId.Some? && AdcActive(rows[i], p)|
  }

  /** The census frame gives every vendor its count of attendance authorizations, 0 for NULL and absent keys. */
  lemma VendorCell(db: Db, p: MonthPair, key: Option<string>)
    ensures CellFor(AdcCensusOnDate(db, p), key) == Count(VendorCount(db.authorizations, p, key))
  {
    VendorFrameCell(AdcCensusOnDate(db, p), db.authorizations, p, key);
  }

  /** A frame that counts active authorizations per vendor gives each key its count, 0 when absent. */
  lemma VendorFrameCell(f: Frame, rows: seq<Authorization>, p: MonthPair, key: Option<string>)
    requires forall k :: k in f.cells <==>
      exists i :: 0 <= i < |rows| && rows[i].vendor == Some(k) && AdcActive(rows[i], p)
    requires forall k :: k in f.cells ==>
      f.cells[k] == Count(|set i | 0 <= i < |rows| && rows[i].vendor == Some(k)
                                    && rows[i].memberId.Some? && AdcActive(rows[i], p)|)
    ensures CellFor(f, key) == Count(VendorCount(rows, p, key))
  {
    var s := set n | 0 <= n < |rows| && key.Some? && rows[n].vendor == key && rows[n].memberId.Some? && AdcActive(rows[n], p);
    if key.Some? && key.value in f.cells {
      assert s == set n | 0 <= n < |rows| && rows[n].vendor == Some(key.value)
                            && rows[n].memberId.Some? && AdcActive(rows[n], p);
    } else {
      assert s == {};
    }
  }

  /** A spread of census frames counts, in every cell, the vendor's attendance authorizations. */
  lemma {:induction false} VendorCells(g: Grid, db: Db, windows: seq<MonthPair>)
    requires CellsFrom(g, p => AdcCensusOnDate(db, p), windows)
    ensures forall i, j :: 0 <= i < |g.rows| && 0 <= j < |windows| ==>
      g.rows[i].cells[j] == Count(VendorCount(db.authorizations, windows[j], g.rows[i].key))
  {
    forall i, j | 0 <= i < |g.rows| && 0 <= j < |windows|
      ensures g.rows[i].cells[j] == Count(VendorCount(db.authorizations, windows[j], g.rows[i].key))
    {
      VendorCell(db, windows[j], g.rows[i].key);
    }
  }

  /** The adult day center report, as the run builds it. */
  function AdcReport(db: Db, start: CalDate, end: CalDate): Grid
  {
    BuildCsvDateSpread(p => AdcCensusOnDate(db, p), Authorizations, db, start, end)
  }

  /**
   * The adult day center report: one row per vendor with an attendance
   * authorization, and each cell the number of that vendor's attendance
   * authorizations in force during the month with a member id.
   */
  lemma {:induction false} AdcReportCells(db: Db, start: CalDate, end: CalDate)
    ensures var g := AdcReport(db, start, end);
      var windows := MonthPairs(start, end);
      && (forall k :: k in Keys(g.rows) <==> InUniverse(Authorizations, db, k))
      && (forall i, j :: 0 <= i < |g.rows| && 0 <= j < |windows| ==>
            g.rows[i].cells[j] == Count(VendorCount(db.authorizations, windows[j], g.rows[i].key)))
  {
    VendorCells(AdcReport(db, start, end), db, MonthPairs(start, end));
  }

  // ---------------------------------------------------------------------
  // Cells of the hospital-infection report

  /** The kept infection candidates charged to `key`. */
  ghost function KeptCount(kept: seq<Candidate>, key: Option<string>): nat
  {
    |set i | 0 <= i < |kept| && key.Some? && kept[i].row.facility == key|
  }

  /** The window's joined infection rows. */
  function JoinedInfections(db: Db, p: MonthPair): seq<Joined>
  {
    LeftJoin(PeriodInfections(db.infections, p), db.inpatient)
  }

  /**
   * The value a key gets in a window of the infection report: when no
   * joined row has a day gap the placeholder gives "None" to a key literally
   * named "None" and 0 to the rest; otherwise the number of kept candidates
   * charged to the key.
   */
  ghost function InfectionValue(db: Db, p: MonthPair, key: Option<string>): Cell
  {
    var js := JoinedInfections(db, p);
    if forall j :: j in js ==> Gap(j).None? then
      if key == Some("None") then Text("None") else Count(0)
    else Count(KeptCount(KeepNearest(js), key))
  }

  /** The frame of one window of the infection report gives each key its value. */
  lemma InfectionFrameCell(db: Db, p: MonthPair, key: Option<string>)
    ensures CellFor(ReportFrame(InfectionsByHosp(db, p)), key) == InfectionValue(db, p, key)
  {
    var r := InfectionsByHosp(db, p);
    if r.Matched? {
      MatchedFrameCell(r.frame, KeepNearest(JoinedInfections(db, p)), key);
    }
  }

  /** A frame counting kept candidates per hospital gives each key its count, 0 when absent. */
  lemma MatchedFrameCell(frame: Frame, kept: seq<Candidate>, key: Option<string>)
    requires forall f :: f in frame.cells <==> exists i :: 0 <= i < |kept| && kept[i].row.facility == Some(f)
    requires forall f :: f in frame.cells ==>
      frame.cells[f] == Count(|set i | 0 <= i < |kept| && kept[i].row.facility == Some(f)|)
    ensures CellFor(frame, key) == Count(KeptCount(kept, key))
  {
    var s := set n | 0 <= n < |kept| && key.Some? && kept[n].row.facility == key;
    if key.Some? && key.value in frame.cells {
      assert s == set n | 0 <= n < |kept| && kept[n].row.facility == Some(key.value);
    } else {
      assert s == {};
    }
  }

  /** A spread of infection frames holds, in every cell, the key's value for the window. */
  lemma {:induction false} InfectionCells(g: Grid, db: Db, windows: seq<MonthPair>)
    requires CellsFrom(g, p => ReportFrame(InfectionsByHosp(db, p)), windows)
    ensures forall i, j :: 0 <= i < |g.rows| && 0 <= j < |windows| ==>
      g.rows[i].cells[j] == InfectionValue(db, windows[j], g.rows[i].key)
  {
    forall i, j | 0 <= i < |g.rows| && 0 <= j < |windows|
      ensures g.rows[i].cells[j] == InfectionValue(db, windows[j], g.rows[i].key)
    {
      InfectionFrameCell(db, windows[j], g.rows[i].key);
    }
  }

  /** The hospital-infection report, as the run builds it. */
  function HospInfectionGrid(db: Db, start: CalDate, end: CalDate): Grid
  {
    BuildCsvDateSpread(p => ReportFrame(InfectionsByHosp(db, p)), Inpatient, db, start, end)
  }

  /**
   * The hospital-infection report: one row per hospital of an acute or
   * psychiatric admission; each cell the number of the month's kept
   * infections charged to it, or the placeholder's value in a month where
   * no infection joins to a discharge.
   */
  lemma {:induction false} InfectionReportCells(db: Db, start: CalDate, end: CalDate)
    ensures var g := HospInfectionGrid(db, start, end);
      var windows := MonthPairs(start, end);
      && (forall k :: k in Keys(g.rows) <==> InUniverse(Inpatient, db, k))
      && (forall i, j :: 0 <= i < |g.rows| && 0 <= j < |windows| ==>
            g.rows[i].cells[j] == InfectionValue(db, windows[j], g.rows[i].key))
  {
    InfectionCells(HospInfectionGrid(db, start, end), db, MonthPairs(start, end));
  }

  // ---------------------------------------------------------------------
  // The pressure-ulcer reports

  /** Keys with the same multiset: the same values, and all present when all are. */
  lemma {:induction false} SameKeysPresent(ks: seq<Option<string>>, universe: seq<Option<string>>)
    requires multiset(ks) == multiset(universe)
    requires forall i :: 0 <= i < |universe| ==> universe[i].Some?
    ensures forall i :: 0 <= i < |ks| ==> ks[i].Some?
    ensures forall k :: k in ks <==> k in universe
  {
    forall k
      ensures k in ks <==> k in universe
    {
      assert k in ks <==> k in multiset(ks);
      assert k in universe <==> k in multiset(universe);
    }
    forall i | 0 <= i < |ks|
      ensures ks[i].Some?
    {
      assert ks[i] in universe;
    }
  }

  /**
   * `build_pressure_wound_csv` as written: one row for every distinct
   * residence detail of the facility type's wounds (NULL read as "Unknown"),
   * in key order, and one column per month-end in [start, end], all carrying
   * the same name, holding the month's as-written count for the detail or 0.
   * A wound with a NULL detail gives the "Unknown" row its key but no count.
   */
  function BuildPressureWoundCsv(facilityType: string, db: Db, start: CalDate, end: CalDate): (g: Grid)
    ensures |g.columns| == |MonthPairs(start, end)|
    ensures forall j :: 0 <= j < |g.columns| ==> g.columns[j] == PulcerColumn(facilityType)
    ensures forall i :: 0 <= i < |g.rows| ==> g.rows[i].key.Some?
    ensures forall k :: Some(k) in Keys(g.rows) <==>
      exists n :: 0 <= n < |db.wounds| && DetailKey(db.wounds[n]) == k
                  && db.wounds[n].livingSituation == Some(facilityType)
    ensures SortedByKey(g.rows)
    ensures CellsFrom(g, p => PressureUlcersAsWritten(facilityType, db, p), MonthPairs(start, end))
  {
    var universe := WoundUniverse(facilityType, db);
    var windows := MonthPairs(start, end);
    var metric := p => PressureUlcersAsWritten(facilityType, db, p);
    var g := BuildSpread(universe, Frames(metric, windows));
    SameKeysPresent(Keys(g.rows), universe);
    SpreadCellsFrom(universe, metric, windows);
    g
  }

  /**
   * The pressure-ulcer report as the NULL-to-"Unknown" fill intends it: the
   * same rows and columns as `BuildPressureWoundCsv`, with cells from the
   * corrected count, so a NULL-detail wound is counted under "Unknown".
   */
  function BuildPressureWoundCsvCorrected(facilityType: string, db: Db, start: CalDate, end: CalDate): (g: Grid)
    ensures |g.columns| == |MonthPairs(start, end)|
    ensures forall j :: 0 <= j < |g.columns| ==> g.columns[j] == PulcerColumn(facilityType)
    ensures forall i :: 0 <= i < |g.rows| ==> g.rows[i].key.Some?
    ensures forall k :: Some(k) in Keys(g.rows) <==>
      exists n :: 0 <= n < |db.wounds| && DetailKey(db.wounds[n]) == k
                  && db.wounds[n].livingSituation == Some(facilityType)
    ensures SortedByKey(g.rows)
    ensures CellsFrom(g, p => PressureUlcersAtFacility(facilityType, db, p), MonthPairs(start, end))
  {
    var universe := WoundUniverse(facilityType, db);
    var windows := MonthPairs(start, end);
    var metric := p => PressureUlcersAtFacility(facilityType, db, p);
    var g := BuildSpread(universe, Frames(metric, windows));
    SameKeysPresent(Keys(g.rows), universe);
    SpreadCellsFrom(universe, metric, windows);
    g
  }

  /** The wounds of the facility type in window `p` with a member id whose detail is literally `k`. */
  ghost function WoundCount(facilityType: string, wounds: seq<Wound>, p: MonthPair, k: string): nat
  {
    |set n | 0 <= n < |wounds| && wounds[n].livingDetail == Some(k) && wounds[n].memberId.Some? && WoundInWindow(facilityType, wounds[n], p)|
  }

  /** The wounds of the facility type in window `p` with a member id reported under `k`, NULL as "Unknown". */
  ghost function CorrectedWoundCount(facilityType: string, wounds: seq<Wound>, p: MonthPair, k: string): nat
  {
    |set n | 0 <= n < |wounds| && DetailKey(wounds[n]) == k && wounds[n].memberId.Some? && WoundInWindow(facilityType, wounds[n], p)|
  }

  /** The as-written frame gives every detail its count of wounds, 0 for absent details. */
  lemma WoundCell(facilityType: string, db: Db, p: MonthPair, k: string)
    ensures CellFor(PressureUlcersAsWritten(facilityType, db, p), Some(k)) == Count(WoundCount(facilityType, db.wounds, p, k))
  {
    var f := PressureUlcersAsWritten(facilityType, db, p);
    if k !in f.cells {
      assert (set n | 0 <= n < |db.wounds| && db.wounds[n].livingDetail == Some(k) && db.wounds[n].memberId.Some?
                      && WoundInWindow(facilityType, db.wounds[n], p)) == {};
    }
  }

  /** The corrected frame gives every detail its count of wounds, 0 for absent details. */
  lemma CorrectedWoundCell(facilityType: string, db: Db, p: MonthPair, k: string)
    ensures CellFor(PressureUlcersAtFacility(facilityType, db, p), Some(k)) == Count(CorrectedWoundCount(facilityType, db.wounds, p, k))
  {
    var f := PressureUlcersAtFacility(facilityType, db, p);
    if k !in f.cells {
      assert (set n | 0 <= n < |db.wounds| && DetailKey(db.wounds[n]) == k && db.wounds[n].memberId.Some?
                      && WoundInWindow(facilityType, db.wounds[n], p)) == {};
    }
  }

  /**
   * A cell of the pressure-ulcer report, as written, is the number of the
   * month's wounds at the facility type with a member id whose detail is the
   * row's key: the "Unknown" row counts only wounds whose detail is the text
   * "Unknown", never a NULL-detail wound.
   */
  lemma {:induction false} WoundReportCells(facilityType: string, db: Db, start: CalDate, end: CalDate)
    ensures var g := BuildPressureWoundCsv(facilityType, db, start, end);
      var windows := MonthPairs(start, end);
      forall i, j :: 0 <= i < |g.rows| && 0 <= j < |windows| ==>
        g.rows[i].cells[j] == Count(WoundCount(facilityType, db.wounds, windows[j], g.rows[i].key.value))
  {
    var g := BuildPressureWoundCsv(facilityType, db, start, end);
    var windows := MonthPairs(start, end);
    forall i, j | 0 <= i < |g.rows| && 0 <= j < |windows|
      ensures g.rows[i].cells[j] == Count(WoundCount(facilityType, db.wounds, windows[j], g.rows[i].key.value))
    {
      WoundCell(facilityType, db, windows[j], g.rows[i].key.value);
    }
  }

  /**
   * A cell of the corrected pressure-ulcer report is the number of the
   * month's wounds at the facility type with a member id reported under the
   * row's detail, NULL details under "Unknown".
   */
  lemma {:induction false} CorrectedWoundReportCells(facilityType: string, db: Db, start: CalDate, end: CalDate)
    ensures var g := BuildPressureWoundCsvCorrected(facilityType, db, start, end);
      var windows := MonthPairs(start, end);
      forall i, j :: 0 <= i < |g.rows| && 0 <= j < |windows| ==>
        g.rows[i].cells[j] == Count(CorrectedWoundCount(facilityType, db.wounds, windows[j], g.rows[i].key.value))
  {
    var g := BuildPressureWoundCsvCorrected(facilityType, db, start, end);
    var windows := MonthPairs(start, end);
    forall i, j | 0 <= i < |g.rows| && 0 <= j < |windows|
      ensures g.rows[i].cells[j] == Count(CorrectedWoundCount(facilityType, db.wounds, windows[j], g.rows[i].key.value))
    {
      CorrectedWoundCell(facilityType, db, windows[j], g.rows[i].key.value);
    }
  }
}
