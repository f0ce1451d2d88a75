/**
 * The reporting months of a run: `pd.date_range(start, end, freq="M")`
 * yields every calendar month-end in [start, end], and each one becomes the
 * query window (first day of that month, that month-end).
 */
module MonthRange {
  import opened Options
  import opened Calendar
  import opened IsoDate

  /** One query window: the first and the last day of a calendar month. */
  datatype MonthPair = MonthPair(first: CalDate, last: CalDate)

  /** The calendar month of a date as one integer, counting months from year 0. */
  function MonthIndex(d: Date): int
  {
    d.year * 12 + d.month - 1
  }

  /** January of year 1 and December of year 9999. */
  const FirstIndex: int := MinYear * 12
  const LastIndex: int := MaxYear * 12 + 11

  /** The last day of the month with index `i`. */
  function MonthEndAt(i: int): (e: CalDate)
    requires FirstIndex <= i <= LastIndex
    ensures IsMonthEnd(e) && MonthIndex(e) == i
  {
    var y := i / 12;
    var m := i % 12 + 1;
    Date(y, m, DaysInMonth(y, m))
  }

  function PairAt(i: int): MonthPair
    requires FirstIndex <= i <= LastIndex
  {
    var e := MonthEndAt(i);
    MonthPair(FirstOfMonth(e), e)
  }

  function PairsFrom(i: int, j: int): (r: seq<MonthPair>)
    requires FirstIndex <= i && j <= LastIndex
    ensures |r| == if i <= j then j - i + 1 else 0
    ensures forall k :: 0 <= k < |r| ==> r[k] == PairAt(i + k)
    decreases j - i
  {
    if i > j then [] else [PairAt(i)] + PairsFrom(i + 1, j)
  }

  /** The month of the last month-end on or before `d`. */
  function LastMonthIndex(d: CalDate): int
  {
    if IsMonthEnd(d) then MonthIndex(d) else MonthIndex(d) - 1
  }

  /**
   * The windows of a run from `start` to `end`. Every window closes on a
   * month-end inside [start, end] and opens on the first of that month; the
   * windows are in strictly increasing order, and an inverted range has none.
   */
  function MonthPairs(start: CalDate, end: CalDate): (r: seq<MonthPair>)
    ensures forall k :: 0 <= k < |r| ==>
      && IsMonthEnd(r[k].last)
      && r[k].first == FirstOfMonth(r[k].last)
      && AtOrBefore(start, r[k].last)
      && AtOrBefore(r[k].last, end)
    ensures forall k, l :: 0 <= k < l < |r| ==> Before(r[k].last, r[l].last)
    ensures Before(end, start) ==> r == []
  {
    WindowsInRange(start, end);
    PairsFrom(MonthIndex(start), LastMonthIndex(end))
  }

  lemma WindowsInRange(start: CalDate, end: CalDate)
    ensures var r := PairsFrom(MonthIndex(start), LastMonthIndex(end));
      && (forall k :: 0 <= k < |r| ==> AtOrBefore(start, r[k].last) && AtOrBefore(r[k].last, end))
      && (forall k, l :: 0 <= k < l < |r| ==> Before(r[k].last, r[l].last))
      && (Before(end, start) ==> r == [])
  {
    var r := PairsFrom(MonthIndex(start), LastMonthIndex(end));
    forall k, l | 0 <= k < l < |r|
      ensures Before(r[k].last, r[l].last)
    {
      MonthIndexOrder(r[k].last, r[l].last);
    }
    forall k | 0 <= k < |r|
      ensures AtOrBefore(start, r[k].last) && AtOrBefore(r[k].last, end)
    {
      MonthIndexOrder(start, r[k].last);
      MonthIndexOrder(r[k].last, end);
    }
    if Before(end, start) {
      MonthIndexOrder(end, start);
      assert LastMonthIndex(end) < MonthIndex(start);
    }
  }

  lemma MonthIndexOrder(a: Date, b: Date)
    requires 1 <= a.month <= 12 && 1 <= b.month <= 12
    ensures MonthIndex(a) < MonthIndex(b) <==>
      a.year < b.year || (a.year == b.year && a.month < b.month)
    ensures MonthIndex(a) == MonthIndex(b) <==> a.year == b.year && a.month == b.month
  {
  }

  /**
   * Every month-end in [start, end] closes one of the windows: with the
   * contract of MonthPairs, the windows are exactly these month-ends.
   */
  lemma {:induction false} MonthPairsComplete(start: CalDate, end: CalDate, e: CalDate)
    requires IsMonthEnd(e) && AtOrBefore(start, e) && AtOrBefore(e, end)
    ensures exists k :: 0 <= k < |MonthPairs(start, end)| && MonthPairs(start, end)[k].last == e
  {
    var r := MonthPairs(start, end);
    var i := MonthIndex(e);
    MonthEndInRange(start, end, e);
    MonthEndAtIndex(e);
    var k := i - MonthIndex(start);
    assert r == PairsFrom(MonthIndex(start), LastMonthIndex(end));
    assert 0 <= k < |r| && r[k] == PairAt(i);
  }

  /** A month-end in [start, end] has its month among the run's month indices. */
  lemma MonthEndInRange(start: CalDate, end: CalDate, e: CalDate)
    requires IsMonthEnd(e) && AtOrBefore(start, e) && AtOrBefore(e, end)
    ensures MonthIndex(start) <= MonthIndex(e) <= LastMonthIndex(end)
  {
    MonthIndexOrder(start, e);
    MonthIndexOrder(e, end);
  }

  lemma MonthEndAtIndex(e: CalDate)
    requires IsMonthEnd(e)
    ensures FirstIndex <= MonthIndex(e) <= LastIndex && MonthEndAt(MonthIndex(e)) == e
  {
    var i := MonthIndex(e);
    assert i == e.year * 12 + (e.month - 1) && 0 <= e.month - 1 < 12;
    assert i / 12 == e.year && i % 12 == e.month - 1;
  }

  /**
   * A run from a month's first day to its last day has exactly that month;
   * ending one day short of the month-end gives no window at all.
   */
  lemma {:induction false} SingleMonthRun(d: CalDate)
    ensures MonthPairs(FirstOfMonth(d), Date(d.year, d.month, DaysInMonth(d.year, d.month)))
      == [MonthPair(FirstOfMonth(d), Date(d.year, d.month, DaysInMonth(d.year, d.month)))]
    ensures d.day < DaysInMonth(d.year, d.month) ==> MonthPairs(FirstOfMonth(d), d) == []
  {
    var e: CalDate := Date(d.year, d.month, DaysInMonth(d.year, d.month));
    MonthEndAtIndex(e);
    assert MonthPairs(FirstOfMonth(d), e) == PairsFrom(MonthIndex(e), MonthIndex(e));
  }

  /** The two query parameters of a window, as the text the queries receive. */
  function Params(p: MonthPair): (r: (string, string))
    ensures Parse(r.0) == Some(p.first) && Parse(r.1) == Some(p.last)
  {
    ParseFormat(p.first);
    ParseFormat(p.last);
    (Format(p.first), Format(p.last))
  }
}
