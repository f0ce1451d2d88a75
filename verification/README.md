# Vendor performance report: a Dafny model

`code/update_vendor_performance.py` builds the vendor-grid reports. These are
CSV tables with one row per facility (or adult day center vendor, or
residence detail) and one column per calendar month of a run, built from
these tables:

- `alfs`, `nursing_home` and `inpatient` stays;
- `authorizations`;
- `infections`;
- `wounds`.

This project models the pure pipeline under the SQL and the file writing:

- **Months of a run** (`MonthRange`). `pd.date_range(start, end, freq="M")`
  gives every month-end in `[start, end]`. Each month-end becomes the query
  window (first of that month, that month-end), passed to the queries as
  `YYYY-MM-DD` text (`IsoDate`, `Calendar`).
- **Row universe** (`Universe`). `SELECT DISTINCT` of a table's key column
  under a fixed per-table filter:
  - adult day center attendance for `authorizations`;
  - acute hospital or psychiatric admissions for `inpatient`;
  - no filter for `alfs` and `nursing_home`;
  - for the wound reports, the `living_detail` of one living situation, with
    NULL read as "Unknown".
- **Monthly metrics** (`Metrics`, `Aggregate`, `Records`). Each metric is a
  WHERE clause over the window, then `groupby(key).count()["member_id"]`
  (rows with a non-NULL member id), then a column name built from the window.
- **Spread** (`Spread`). One left merge per month onto the universe, with
  `fillna(0)` after each, then `sort_values` by key.
- **Hospital-acquired infection matcher** (`Proximity`). Infections are
  left-joined to inpatient stays by member. The matcher:
  - keeps the rows whose discharge is within 7 days of the infection;
  - sorts them by gap;
  - keeps the first row per (member, infection date);
  - counts the kept rows per hospital;
  - lists the infections whose member has no kept row;
  - falls back to the `{facility: "None", infections: "None"}` placeholder
    when no joined row has a day gap.
- **Report wiring** (`Pipeline`). The reports as the script's main block builds
  them, and what every cell of each report holds. The pressure-ulcer report is
  built from the as-written count. `BuildPressureWoundCsvCorrected` is the
  same report with the corrected count of the finding below.

Two behaviours of the code are modelled as written:

- The nursing-facility census queries `inpatient` while its rows come from
  `nursing_home`.
- The pressure-ulcer column is named `{facility_type}_pulcers-{facility_type[:7]}`,
  because the query parameters are rebound before the name is built.

Two facts about the code that a reader might not expect:

- A run whose start and end fall in the same month has a window only if the
  end is that month's last day. `pd.date_range` with `freq="M"` yields
  month-ends only.
- The "active during the month" test reads
  `(discharge_date >= first OR discharge_date IS NULL) AND admission_date <= last`,
  so it tests overlap with the month.

## Model

| member | source | states |
|---|---|---|
| Calendar.DaysInMonth | code/update_vendor_performance.py:41 | a calendar month has between 28 and 31 days; February has 29 exactly in a leap year |
| Calendar.FirstOfMonth | code/update_vendor_performance.py:42 | the window opens on day 1 of the same year and month, never after the month-end |
| Calendar.DayDistance | code/update_vendor_performance.py:292-294 | `abs(a - b).days` is 0 exactly when the two dates are the same day |
| Calendar.DayDistanceSuccessor | code/update_vendor_performance.py:292-294 | a day and the next are one day apart, in either argument order |
| Calendar.DayDistanceSymmetric | code/update_vendor_performance.py:292-294 | `abs(a - b)` does not depend on the order of the two dates |
| Calendar.DayDistanceAdds | code/update_vendor_performance.py:292-294 | distances add up along the calendar, so the distance is the number of day steps between the dates |
| Calendar.DayNumberSuccessor | code/update_vendor_performance.py:292-294 | the day ordinal counts days: the next day has the next ordinal and 0001-01-01 is day 1 |
| Calendar.DayNumberOrder | code/update_vendor_performance.py:292-294 | ordinals follow chronological order, in both directions |
| Calendar.DaysBeforeNextYear | code/update_vendor_performance.py:292-294 | each year adds exactly its own length (365 or 366) to the ordinals after it |
| IsoDate.ParseFormat | code/update_vendor_performance.py:43 | reading back `str(date)` gives the date |
| IsoDate.FormatParse | code/update_vendor_performance.py:43 | any text that reads as a date is exactly that date's `YYYY-MM-DD` text |
| IsoDate.YearMonthInjective | code/update_vendor_performance.py:112 | two dates with the same `YYYY-MM` text are in the same year and month |
| IsoDate.Take | code/update_vendor_performance.py:112 | `s[:n]` has length min(len(s), n) and agrees with `s` on it |
| MonthRange.MonthPairs | code/update_vendor_performance.py:41-43 | every window closes on a month-end inside [start, end] and opens on the first of that month; windows strictly ascend; an inverted range has none |
| MonthRange.MonthPairsComplete | code/update_vendor_performance.py:41 | every month-end in [start, end] closes some window |
| MonthRange.SingleMonthRun | code/update_vendor_performance.py:41-43 | first-to-last day of a month gives exactly that month; stopping short of the month-end gives no window |
| MonthRange.Params | code/update_vendor_performance.py:42-43 | the two query parameters read back as the window's first and last day |
| Aggregate.GroupCount | code/update_vendor_performance.py:109-110 | one group per key of a kept row (NULL keys form none), counting the group's rows with a non-NULL member id |
| Metrics.MonthColumn | code/update_vendor_performance.py:112 | `prefix + params[0][:7]` is the prefix followed by the window's `YYYY-MM` |
| Metrics.DayColumn | code/update_vendor_performance.py:137 | `prefix + params[0]` is the prefix followed by text that reads as the window's first day |
| Metrics.StayFrame | code/update_vendor_performance.py:101-113 | a stay metric keeps one entry per facility with a passing row, counting its passing rows with a member id |
| Metrics.AlfCensusOnDate | code/update_vendor_performance.py:101-113 | ALF stays overlapping the window, per `facility_name`, column `census-YYYY-MM` |
| Metrics.AlfToHosp | code/update_vendor_performance.py:127-138 | ALF discharges to `Hospital/ER` inside the window (both ends included), column `hosp_admits-` and the full first day |
| Metrics.NfCensusOnDate | code/update_vendor_performance.py:152-164 | counts `inpatient` stays overlapping the window, column `census-YYYY-MM` |
| Metrics.NfToHosp | code/update_vendor_performance.py:178-189 | nursing-home discharges to an acute or psychiatric facility inside the window, column `hosp_admits-` and the first day |
| Metrics.HospAdmissions | code/update_vendor_performance.py:203-213 | inpatient admissions inside the window per hospital, column `admissions-YYYY-MM` |
| Metrics.Resulting30DayHospCount | code/update_vendor_performance.py:227-233 | counts the given admission rows per hospital, column `results_in_30dr-YYYY-MM` |
| Metrics.Readmit30DayHospCount | code/update_vendor_performance.py:247-253 | counts the given readmission rows per hospital, column `30dr-YYYY-MM` |
| Metrics.AdcCensusOnDate | code/update_vendor_performance.py:330-343 | adult day center attendance authorizations in force during the window, per vendor, column `adc_census-YYYY-MM` |
| Metrics.MonthColumnsDistinct | code/update_vendor_performance.py:112 | month-stamped names of different months differ |
| Metrics.PressureUlcersAsWritten | code/update_vendor_performance.py:346-361 | as written: the keys are exactly the non-NULL details of the type's wounds in the window, and each key counts those wounds with a member id whose detail is that text; a NULL-detail wound gives no key and is counted nowhere |
| Metrics.PressureUlcersAtFacility | code/update_vendor_performance.py:346-361 | every wound of the type in the window gives a key, NULL detail as "Unknown", with its count |
| Metrics.NullDetailDroppedAsWritten | code/update_vendor_performance.py:355-360 | a wound with NULL detail is absent as written but counted under "Unknown" when corrected |
| Metrics.PulcerColumnSnf | code/update_vendor_performance.py:347-358 | the SNF report's column is `SNF_pulcers-SNF` |
| Metrics.PulcerColumnTruncates | code/update_vendor_performance.py:347-358 | a facility type longer than seven characters is cut to seven after the dash |
| Universe.Distinct | code/update_vendor_performance.py:38 | `SELECT DISTINCT` keeps exactly the values present, each once |
| Universe.FacilityUniverse | code/update_vendor_performance.py:30-39 | the distinct keys of the table under its fixed filter, with no date restriction |
| Universe.WoundUniverse | code/update_vendor_performance.py:70-75 | the distinct details of the living situation's wounds, NULL read as "Unknown", none NULL |
| KeyOrder.KeyLeTotal | code/update_vendor_performance.py:47 | any two keys are ordered one way or the other |
| KeyOrder.KeyLeTransitive | code/update_vendor_performance.py:47 | the key order is transitive |
| Spread.JoinStep | code/update_vendor_performance.py:45 | a left merge keeps every row once, in place with its cells, and adds the month's value or 0 |
| Spread.JoinAllShape | code/update_vendor_performance.py:41-45 | after all months the rows and keys are the universe's, the table is rectangular, earlier cells are unchanged |
| Spread.JoinAllMonthCells | code/update_vendor_performance.py:41-45 | after all months, the cell of month j is month j's value for the row's key, or 0 |
| Spread.JoinAllCells | code/update_vendor_performance.py:41-45 | the shape and month-cell facts of the merge loop together |
| Spread.InsertSorted | code/update_vendor_performance.py:47 | inserting into key-sorted rows keeps them sorted |
| Spread.SortRows | code/update_vendor_performance.py:47 | the sorted rows are key-ordered and a permutation of the input |
| Spread.SortedRowsKeepCells | code/update_vendor_performance.py:47 | sorting moves whole rows, so each row keeps its own month cells |
| Spread.BuildSpread | code/update_vendor_performance.py:41-47 | the universe's keys as sorted rows, each cell the month's value for the key or 0 |
| Spread.TwoMonthExample | code/update_vendor_performance.py:45-47 | universe {B, A} over two months: rows A then B, absent counts 0 |
| Proximity.PeriodInfections | code/update_vendor_performance.py:274-279 | exactly the hospital-acquired infections that occurred inside the window, each as many times as the table holds it |
| Proximity.JoinOne | code/update_vendor_performance.py:280-287 | an infection joins to every stay of its member, or to one NULL row when it has none |
| Proximity.LeftJoin | code/update_vendor_performance.py:280-287 | the joined rows are exactly each period infection's joined rows |
| Proximity.InRange | code/update_vendor_performance.py:292-299 | exactly the joined rows within 7 days, each with its own gap |
| Proximity.SortByGap | code/update_vendor_performance.py:304 | the same candidates, gaps ascending |
| Proximity.DropDuplicatesDistinct | code/update_vendor_performance.py:305-307 | at most one survivor per (member, infection date) |
| Proximity.DropDuplicatesCovers | code/update_vendor_performance.py:305-307 | every key of the input keeps a survivor |
| Proximity.DropDuplicatesKeepsFirst | code/update_vendor_performance.py:305-307 | each survivor is the first candidate of its key |
| Proximity.KeptNearest | code/update_vendor_performance.py:304-307 | a kept candidate has the smallest gap among its key's rows |
| Proximity.KeepNearestMinimal | code/update_vendor_performance.py:292-307 | kept rows are within 7 days, one per key, one for every in-range key, each of minimal gap |
| Proximity.KeptHaveMembers | code/update_vendor_performance.py:311-313 | every kept row has a member id, so each is counted |
| Proximity.Unmatched | code/update_vendor_performance.py:308-310 | exactly the infections whose member has no kept row (matching by member only), each as many times as the input holds it |
| Proximity.KeptFrame | code/update_vendor_performance.py:311-316 | one entry per hospital of a kept row, holding its number of kept rows, column `infections` |
| Proximity.InfectionsByHosp | code/update_vendor_performance.py:256-316 | placeholder exactly when no joined row has a gap; otherwise per-hospital counts of kept rows, column `infections`, and the unmatched list holding each of the window's infections whose member has no kept row, with its multiplicity in the table |
| Proximity.NoStaysPlaceholder | code/update_vendor_performance.py:296-302 | with no inpatient stays every window gives the placeholder frame |
| Proximity.NearerOfTwoKept | code/update_vendor_performance.py:304-307 | of two in-range rows of one infection only the nearer is kept |
| Proximity.NearestHospitalExample | code/update_vendor_performance.py:292-316 | an infection 3 days after leaving H1 and 5 days before leaving H2 is charged to H1 only, nothing unmatched |
| Proximity.OneKeptReport | code/update_vendor_performance.py:308-316 | one infection with one kept row of its member gives that hospital count 1 and no unmatched infection |
| Pipeline.BuildCsvDateSpread | code/update_vendor_performance.py:9-49 | one row per distinct key of the table's universe, each once, sorted; one column per window, named by the month's frame; each cell the frame's value for the key or 0 |
| Pipeline.MonthStampedColumnsDistinct | code/update_vendor_performance.py:41-45 | a month-stamped metric gives a report with no two equal column names |
| Pipeline.StayReportCells | code/update_vendor_performance.py:402-424 | each stay report's cell is the number of the month's passing rows with a member id under the row's key |
| Pipeline.NfCensusReadsInpatient | code/update_vendor_performance.py:409-411 | with no inpatient rows every nursing-facility census cell is 0, whatever `nursing_home` holds |
| Pipeline.AdcReportCells | code/update_vendor_performance.py:429-431 | each adult day center cell counts the vendor's attendance authorizations in force that month |
| Pipeline.InfectionReportCells | code/update_vendor_performance.py:425-427 | each infection cell is the hospital's kept count, or the placeholder's value ("None" under key "None", else 0) |
| Pipeline.BuildPressureWoundCsv | code/update_vendor_performance.py:52-87 | one row per distinct detail (NULL as "Unknown"), sorted, every column the same pulcer name, each cell the month's as-written count for the detail or 0 |
| Pipeline.WoundReportCells | code/update_vendor_performance.py:433-438 | each pressure-ulcer cell is the number of the month's wounds of the type with a member id whose detail is literally the row's key; the "Unknown" row never counts a NULL-detail wound |
| Pipeline.BuildPressureWoundCsvCorrected | code/update_vendor_performance.py:355-360 | the same rows and columns as the as-written report, each cell the corrected count for the detail or 0 |
| Pipeline.CorrectedWoundReportCells | code/update_vendor_performance.py:355-360 | in the corrected report each cell counts the month's wounds of the type with a member id under the row's detail, NULL-detail wounds under "Unknown" |

## Left out

- SQL execution and the `paceutils` utilisation object (`dataframe_query`, `last_quarter` and the two 30-day helpers) are not modelled. Tables are sequences of rows in `Records.Db`. The two 30-day row sets are a parameter of the model (`Pipeline.ThirtyDay`), because their computation is not visible.
- `archive_files` copies, zips and deletes directories. This is file I/O only.
- Argument parsing, the `last_quarter` defaults, and writing each report and the unmatched list to CSV are not modelled. The unmatched list is returned as part of each window's `Proximity.InfectionReport`. The code writes `output/hospital_inf_without_visit.csv` once per window that is not the placeholder, so after a run the file holds only the last such window's list. `Pipeline.HospInfectionGrid` keeps only the frames (through `Proximity.ReportFrame`), so this per-run side output is not represented.
- pandas dtype mechanics are not modelled: the `.dt` accessor, `pd.to_datetime` parsing of stored text, and the `_x`/`_y` suffixes pandas adds when merged columns share a name (`infections`, the pulcer column). The model keeps one column per window, with the name the frame gives it.
- `BuildCsvDateSpread` keeps a NULL universe key as a NULL row key, sorted last. In pandas, `fillna(0)` after the first merge turns that key into 0, and sorting mixed numbers and text would raise.
- The infection placeholder is an explicit test ("no joined row has a day gap") in place of catching the `AttributeError` that `.dt` raises on a column with no dates.
- Stored timestamps are whole calendar days. Time of day, dates outside years 1 to 9999, and SQLite's text comparison of dates are not modelled.
- The model accepts every year from 1 to 9999. The code's dates pass through `pd.date_range` and `pd.to_datetime` (lines 41-42, 76-77 and 289-290), which raise `OutOfBoundsDatetime` for dates outside 1677-09-21 to 2262-04-11. That error path is not modelled.
- Proximity.InfectionsByHosp: when several stays of one infection share the smallest gap, the model keeps the first of them in join order, because `Proximity.SortByGap` is a stable insertion sort. pandas' default sort is not stable, so the code may keep another of them. The per-hospital counts under such a tie are the model's choice, not a promise of the code.
- `Pipeline.NfCensusReadsInpatient` states the census quirk for the case of an empty `inpatient` table only. `Pipeline.StayReportCells` gives the general count.

## Findings

| source | as written | input that shows it | evidently intended | confidence | as-written member | corrected member |
|---|---|---|---|---|---|---|
| code/update_vendor_performance.py:355-360 | the group count on `living_detail` drops rows whose detail is NULL, so the later `fillna("Unknown")` finds no NULL key and such wounds are never counted; the report's "Unknown" row (from the universe fill at line 75) stays 0 | one SNF wound with member `m1`, NULL `living_detail`, occurring 2024-01-15, window 2024-01-01 to 2024-01-31 | the wound is counted under "Unknown" | not executed | Metrics.PressureUlcersAsWritten (shown by Metrics.NullDetailDroppedAsWritten) | Metrics.PressureUlcersAtFacility |
