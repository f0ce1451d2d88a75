/**
 * The month spread: the universe's keys as rows, one column per month,
 * built by left-joining each month's frame onto the rows and zero-filling
 * after every join, then sorting the rows by key.
 */
module Spread {
  import opened Options
  import opened Aggregate
  import opened KeyOrder

  datatype Row = Row(key: Option<string>, cells: seq<Cell>)

  /** A wide table: the value columns' names and the rows. */
  datatype Grid = Grid(columns: seq<string>, rows: seq<Row>)

  /** The cell a key gets from a frame: the frame's value, or 0 when the key is absent. */
  function CellFor(f: Frame, key: Option<string>): Cell
  {
    if key.Some? && key.value in f.cells then f.cells[key.value] else Count(0)
  }

  function Keys(rows: seq<Row>): (ks: seq<Option<string>>)
    ensures |ks| == |rows| && forall i :: 0 <= i < |rows| ==> ks[i] == rows[i].key
  {
    seq(|rows|, i requires 0 <= i < |rows| => rows[i].key)
  }

  /** The universe before any month: one row per key, no value columns. */
  function Initial(universe: seq<Option<string>>): (g: Grid)
    ensures g.columns == [] && Keys(g.rows) == universe
    ensures forall i :: 0 <= i < |g.rows| ==> g.rows[i].cells == []
  {
    Grid([], seq(|universe|, i requires 0 <= i < |universe| => Row(universe[i], [])))
  }

  /**
   * `df.merge(frame, on=key, how="left").fillna(0)`. Frame keys are unique,
   * so every row is kept exactly once and in place with its earlier cells;
   * it gains one cell, the frame's value for its key or 0, and frame keys
   * that are not row keys are dropped.
   */
  function JoinStep(g: Grid, f: Frame): (r: Grid)
    ensures r.columns == g.columns + [f.column]
    ensures |r.rows| == |g.rows| && Keys(r.rows) == Keys(g.rows)
    ensures forall i :: 0 <= i < |r.rows| ==>
      && |r.rows[i].cells| == |g.rows[i].cells| + 1
      && r.rows[i].cells[|g.rows[i].cells|] == (if g.rows[i].key.Some? && g.rows[i].key.value in f.cells
                                                 then f.cells[g.rows[i].key.value] else Count(0))
    ensures forall i, j :: 0 <= i < |r.rows| && 0 <= j < |g.rows[i].cells| ==> r.rows[i].cells[j] == g.rows[i].cells[j]
  {
    // The left merge pairs each row with its match in the frame, if any ...
    var merged := seq(|g.rows|, i requires 0 <= i < |g.rows| =>
      (g.rows[i], if g.rows[i].key.Some? && g.rows[i].key.value in f.cells
                  then Some(f.cells[g.rows[i].key.value]) else None));
    // ... and the fill turns a missing match into 0.
    Grid(g.columns + [f.column],
         seq(|merged|, i requires 0 <= i < |merged| =>
           Row(merged[i].0.key, merged[i].0.cells + [merged[i].1.GetOr(Count(0))])))
  }

  /** Every row has one cell per column. */
  predicate Rectangular(g: Grid)
  {
    forall i :: 0 <= i < |g.rows| ==> |g.rows[i].cells| == |g.columns|
  }

  function Columns(frames: seq<Frame>): (cs: seq<string>)
    ensures |cs| == |frames| && forall j :: 0 <= j < |frames| ==> cs[j] == frames[j].column
  {
    seq(|frames|, j requires 0 <= j < |frames| => frames[j].column)
  }

  /** The joins of all months, in order. */
  function JoinAll(g: Grid, frames: seq<Frame>): (r: Grid)
    decreases |frames|
  {
    if |frames| == 0 then g else JoinAll(JoinStep(g, frames[0]), frames[1..])
  }

  /**
   * After the joins of all months the rows are still the universe's, in
   * place, the table is rectangular and earlier cells are untouched.
   */
  lemma {:induction false} JoinAllShape(g: Grid, frames: seq<Frame>)
    requires Rectangular(g)
    ensures var r := JoinAll(g, frames);
      && r.columns == g.columns + Columns(frames)
      && |r.rows| == |g.rows| && Keys(r.rows) == Keys(g.rows)
      && Rectangular(r)
      && (forall i, j :: 0 <= i < |r.rows| && 0 <= j < |g.columns| ==>
            r.rows[i].cells[j] == g.rows[i].cells[j])
    decreases |frames|
  {
    if |frames| > 0 {
      var g1 := JoinStep(g, frames[0]);
      assert Rectangular(g1);
      JoinAllShape(g1, frames[1..]);
      var r := JoinAll(g1, frames[1..]);
      assert JoinAll(g, frames) == r;
      calc {
        r.columns;
        (g.columns + [frames[0].column]) + Columns(frames[1..]);
        g.columns + ([frames[0].column] + Columns(frames[1..]));
        { assert Columns(frames) == [frames[0].column] + Columns(frames[1..]); }
        g.columns + Columns(frames);
      }
      forall i, j | 0 <= i < |r.rows| && 0 <= j < |g.columns|
        ensures r.rows[i].cells[j] == g.rows[i].cells[j]
      {
        assert j < |g1.columns| && j < |g.rows[i].cells|;
      }
    }
  }

  /** After the joins, the cell of month `j` is that month's value for the row's key, or 0. */
  lemma {:induction false} JoinAllMonthCells(g: Grid, frames: seq<Frame>)
    requires Rectangular(g)
    ensures var r := JoinAll(g, frames);
      forall i, j :: 0 <= i < |r.rows| && 0 <= j < |frames| ==>
        && |g.columns| + j < |r.rows[i].cells|
        && r.rows[i].cells[|g.columns| + j] == CellFor(frames[j], r.rows[i].key)
    decreases |frames|
  {
    if |frames| > 0 {
      var g1 := JoinStep(g, frames[0]);
      assert Rectangular(g1);
      JoinAllShape(g1, frames[1..]);
      JoinAllMonthCells(g1, frames[1..]);
      var r := JoinAll(g1, frames[1..]);
      forall i, j | 0 <= i < |r.rows| && 0 <= j < |frames|
        ensures |g.columns| + j < |r.rows[i].cells|
        ensures r.rows[i].cells[|g.columns| + j] == CellFor(frames[j], r.rows[i].key)
      {
        assert r.rows[i].key == Keys(r.rows)[i] == Keys(g1.rows)[i] == g1.rows[i].key;
        assert g1.rows[i].key == Keys(g1.rows)[i] == Keys(g.rows)[i] == g.rows[i].key;
        if j > 0 {
          assert frames[1..][j - 1] == frames[j];
        } else {
          assert r.rows[i].cells[|g.columns|] == g1.rows[i].cells[|g.columns|];
        }
      }
    }
  }

  /**
   * The joins of all months, as a whole: shape and earlier cells as in
   * `JoinAllShape`, month cells as in `JoinAllMonthCells`.
   */
  lemma JoinAllCells(g: Grid, frames: seq<Frame>)
    requires Rectangular(g)
    ensures var r := JoinAll(g, frames);
      && r.columns == g.columns + Columns(frames)
      && |r.rows| == |g.rows| && Keys(r.rows) == Keys(g.rows)
      && Rectangular(r)
      && (forall i, j :: 0 <= i < |r.rows| && 0 <= j < |g.columns| ==>
            r.rows[i].cells[j] == g.rows[i].cells[j])
      && (forall i, j :: 0 <= i < |r.rows| && 0 <= j < |frames| ==>
            r.rows[i].cells[|g.columns| + j] == CellFor(frames[j], r.rows[i].key))
  {
    JoinAllShape(g, frames);
    JoinAllMonthCells(g, frames);
  }

  predicate SortedByKey(rows: seq<Row>)
  {
    forall i, j :: 0 <= i < j < |rows| ==> KeyLe(rows[i].key, rows[j].key)
  }

  lemma KeysCons(x: Row, rows: seq<Row>)
    ensures Keys([x] + rows) == [x.key] + Keys(rows)
  {
  }

  lemma ConsSorted(h: Row, t: seq<Row>)
    requires SortedByKey(t)
    requires forall y :: y in t ==> KeyLe(h.key, y.key)
    ensures SortedByKey([h] + t)
  {
    var r := [h] + t;
    forall i, j | 0 <= i < j < |r|
      ensures KeyLe(r[i].key, r[j].key)
    {
      if i == 0 {
        assert r[j] == t[j - 1] && r[j] in t;
      } else {
        assert r[i] == t[i - 1] && r[j] == t[j - 1];
      }
    }
  }

  lemma HeadBelowRest(h: Row, rest: seq<Row>, x: Row, tail: seq<Row>)
    requires SortedByKey([h] + rest)
    requires KeyLe(h.key, x.key)
    requires multiset(tail) == multiset(rest) + multiset{x}
    ensures forall y :: y in tail ==> KeyLe(h.key, y.key)
  {
    forall y | y in tail
      ensures KeyLe(h.key, y.key)
    {
      assert y in multiset(tail);
      if y != x {
        assert y in multiset(rest);
        var k :| 0 <= k < |rest| && rest[k] == y;
        assert ([h] + rest)[0] == h && ([h] + rest)[k + 1] == y;
      }
    }
  }

  /** Both multisets of a row sequence built by putting `h` in front of `t`. */
  lemma ConsMultisets(h: Row, t: seq<Row>)
    ensures multiset([h] + t) == multiset(t) + multiset{h}
    ensures multiset(Keys([h] + t)) == multiset(Keys(t)) + multiset{h.key}
  {
    KeysCons(h, t);
  }

  /** Places `x` before the first row whose key is not below it. */
  function Insert(x: Row, rows: seq<Row>): (r: seq<Row>)
    ensures multiset(r) == multiset(rows) + multiset{x}
    ensures multiset(Keys(r)) == multiset(Keys(rows)) + multiset{x.key}
    decreases |rows|
  {
    if |rows| == 0 then
      ConsMultisets(x, rows);
      [x] + rows
    else if KeyLe(x.key, rows[0].key) then
      ConsMultisets(x, rows);
      [x] + rows
    else
      var tail := Insert(x, rows[1..]);
      assert rows == [rows[0]] + rows[1..];
      ConsMultisets(rows[0], rows[1..]);
      ConsMultisets(rows[0], tail);
      [rows[0]] + tail
  }

  lemma {:induction false} InsertSorted(x: Row, rows: seq<Row>)
    requires SortedByKey(rows)
    ensures SortedByKey(Insert(x, rows))
    decreases |rows|
  {
    if |rows| == 0 {
    } else if KeyLe(x.key, rows[0].key) {
      assert rows == [rows[0]] + rows[1..];
      forall y | y in rows
        ensures KeyLe(x.key, y.key)
      {
        var k :| 0 <= k < |rows| && rows[k] == y;
        if k > 0 {
          KeyLeTransitive(x.key, rows[0].key, y.key);
        }
      }
      ConsSorted(x, rows);
    } else {
      KeyLeTotal(x.key, rows[0].key);
      assert rows == [rows[0]] + rows[1..];
      InsertSorted(x, rows[1..]);
      var tail := Insert(x, rows[1..]);
      HeadBelowRest(rows[0], rows[1..], x, tail);
      ConsSorted(rows[0], tail);
    }
  }

  /** `sort_values(by=key)`: ascending keys, the same rows. */
  function SortRows(rows: seq<Row>): (r: seq<Row>)
    ensures SortedByKey(r)
    ensures multiset(r) == multiset(rows)
    ensures multiset(Keys(r)) == multiset(Keys(rows))
    decreases |rows|
  {
    if |rows| == 0 then []
    else
      assert rows == [rows[0]] + rows[1..];
      KeysCons(rows[0], rows[1..]);
      InsertSorted(rows[0], SortRows(rows[1..]));
      Insert(rows[0], SortRows(rows[1..]))
  }

  /** Sorting moves whole rows, so every sorted row carries its own month cells. */
  lemma SortedRowsKeepCells(rows: seq<Row>, sorted: seq<Row>, frames: seq<Frame>)
    requires multiset(sorted) == multiset(rows)
    requires forall i :: 0 <= i < |rows| ==> |rows[i].cells| == |frames|
    requires forall i, j :: 0 <= i < |rows| && 0 <= j < |frames| ==>
      rows[i].cells[j] == CellFor(frames[j], rows[i].key)
    ensures forall i :: 0 <= i < |sorted| ==> |sorted[i].cells| == |frames|
    ensures forall i, j :: 0 <= i < |sorted| && 0 <= j < |frames| ==>
      sorted[i].cells[j] == CellFor(frames[j], sorted[i].key)
  {
    forall i | 0 <= i < |sorted|
      ensures |sorted[i].cells| == |frames|
      ensures forall j :: 0 <= j < |frames| ==> sorted[i].cells[j] == CellFor(frames[j], sorted[i].key)
    {
      assert sorted[i] in multiset(rows);
      var k :| 0 <= k < |rows| && rows[k] == sorted[i];
    }
  }

  /**
   * The month spread of a universe and one frame per month: one column per
   * frame in order, the universe's keys once each (as a multiset), sorted
   * ascending, and in every row the cell of month `j` is month `j`'s value
   * for the row's key or 0 -- never missing.
   */
  function BuildSpread(universe: seq<Option<string>>, frames: seq<Frame>): (r: Grid)
    ensures r.columns == Columns(frames)
    ensures multiset(Keys(r.rows)) == multiset(universe)
    ensures SortedByKey(r.rows)
    ensures forall i :: 0 <= i < |r.rows| ==> |r.rows[i].cells| == |frames|
    ensures forall i, j :: 0 <= i < |r.rows| && 0 <= j < |frames| ==>
      r.rows[i].cells[j] == CellFor(frames[j], r.rows[i].key)
  {
    var g := Initial(universe);
    assert Rectangular(g);
    var joined := JoinAll(g, frames);
    JoinAllCells(g, frames);
    assert joined.columns == Columns(frames);
    assert Keys(joined.rows) == universe;
    var sorted := SortRows(joined.rows);
    SortedRowsKeepCells(joined.rows, sorted, frames);
    Grid(joined.columns, sorted)
  }

  /** Two rows with keys B and A, in key order: A first. */
  lemma {:induction false} TwoKeysInOrder(rows: seq<Row>)
    requires multiset(Keys(rows)) == multiset([Some("B"), Some("A")])
    requires SortedByKey(rows)
    ensures |rows| == 2 && rows[0].key == Some("A") && rows[1].key == Some("B")
  {
    var ks := Keys(rows);
    assert |ks| == 2 by {
      assert |ks| == |multiset(ks)| == |multiset([Some("B"), Some("A")])|;
    }
    assert ks == [ks[0], ks[1]];
    assert multiset{ks[0], ks[1]} == multiset{Some("B"), Some("A")};
    assert TextLe("A", "B") && !TextLe("B", "A");
    assert KeyLe(ks[0], ks[1]);
  }

  /** The cells of the worked example's two rows. */
  lemma ExampleRows(rows: seq<Row>, frames: seq<Frame>)
    requires frames == [Frame("m1", map["A" := Count(5)]), Frame("m2", map["B" := Count(3)])]
    requires |rows| == 2 && rows[0].key == Some("A") && rows[1].key == Some("B")
    requires forall i :: 0 <= i < |rows| ==> |rows[i].cells| == |frames|
    requires forall i, j :: 0 <= i < |rows| && 0 <= j < |frames| ==> rows[i].cells[j] == CellFor(frames[j], rows[i].key)
    ensures rows == [Row(Some("A"), [Count(5), Count(0)]), Row(Some("B"), [Count(0), Count(3)])]
  {
    var a, b := frames[0], frames[1];
    assert "A" in a.cells && "B" !in a.cells && "A" !in b.cells && "B" in b.cells;
    assert rows[0].cells[0] == CellFor(a, Some("A")) == Count(5);
    assert rows[0].cells[1] == CellFor(b, Some("A")) == Count(0);
    assert rows[1].cells[0] == CellFor(a, Some("B")) == Count(0);
    assert rows[1].cells[1] == CellFor(b, Some("B")) == Count(3);
    assert rows[0].cells == [Count(5), Count(0)];
    assert rows[1].cells == [Count(0), Count(3)];
  }

  /** The rows of the two-month example: keys in order, missing counts zero-filled. */
  lemma TwoMonthRows(universe: seq<Option<string>>, frames: seq<Frame>)
    requires universe == [Some("B"), Some("A")]
    requires frames == [Frame("m1", map["A" := Count(5)]), Frame("m2", map["B" := Count(3)])]
    ensures BuildSpread(universe, frames).rows
         == [Row(Some("A"), [Count(5), Count(0)]), Row(Some("B"), [Count(0), Count(3)])]
  {
    var r := BuildSpread(universe, frames);
    assert multiset(Keys(r.rows)) == multiset([Some("B"), Some("A")]);
    TwoKeysInOrder(r.rows);
    ExampleRows(r.rows, frames);
  }

  /**
   * The worked example: universe {B, A}, month 1 = {A: 5}, month 2 = {B: 3}
   * gives A: [5, 0] and B: [0, 3], sorted by facility.
   */
  lemma TwoMonthExample(universe: seq<Option<string>>, frames: seq<Frame>)
    requires universe == [Some("B"), Some("A")]
    requires frames == [Frame("m1", map["A" := Count(5)]), Frame("m2", map["B" := Count(3)])]
    ensures BuildSpread(universe, frames)
         == Grid(["m1", "m2"], [Row(Some("A"), [Count(5), Count(0)]), Row(Some("B"), [Count(0), Count(3)])])
  {
    TwoMonthRows(universe, frames);
    TwoMonthColumns(universe, frames);
  }

  lemma TwoMonthColumns(universe: seq<Option<string>>, frames: seq<Frame>)
    requires |frames| == 2 && frames[0].column == "m1" && frames[1].column == "m2"
    ensures BuildSpread(universe, frames).columns == ["m1", "m2"]
  {
    var cs := BuildSpread(universe, frames).columns;
    assert |cs| == 2 && cs[0] == "m1" && cs[1] == "m2";
  }
}
