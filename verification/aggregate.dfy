/**
 * `groupby(key).count()["member_id"]`: the per-key count of the rows a query
 * returned, and the one-column frames the monthly metrics produce.
 */
module Aggregate {
  import opened Options

  /** What the group count sees of one row: its key, its member id, and whether the query kept it. */
  datatype Tally = Tally(key: Option<string>, memberId: Option<string>, kept: bool)

  /** Some kept row has key `k`: the group `k` exists (NULL keys form no group). */
  ghost predicate HasGroup(ts: seq<Tally>, k: string)
  {
    exists i :: 0 <= i < |ts| && ts[i].kept && ts[i].key == Some(k)
  }

  /** The kept rows with key `k` and a non-null member id: what `count()` counts. */
  ghost function Counted(ts: seq<Tally>, k: string): set<int>
  {
    set i | 0 <= i < |ts| && ts[i].kept && ts[i].key == Some(k) && ts[i].memberId.Some?
  }

  /**
   * One entry per group, holding the number of its rows whose member id is
   * not null. A group whose rows all lack a member id is kept with count 0.
   */
  function GroupCount(ts: seq<Tally>): (r: map<string, nat>)
    ensures forall k :: k in r <==> HasGroup(ts, k)
    ensures forall k :: k in r ==> r[k] == |Counted(ts, k)|
  {
    if |ts| == 0 then map[]
    else
      var init := ts[..|ts| - 1];
      var t := ts[|ts| - 1];
      var r := GroupCount(init);
      CountedSnoc(ts);
      HasGroupSnoc(ts);
      if t.kept && t.key.Some? then
        var before := if t.key.value in r then r[t.key.value] else 0;
        r[t.key.value := before + (if t.memberId.Some? then 1 else 0)]
      else r
  }

  lemma HasGroupSnoc(ts: seq<Tally>)
    requires |ts| > 0
    ensures forall k :: HasGroup(ts, k) <==>
      HasGroup(ts[..|ts| - 1], k) || (ts[|ts| - 1].kept && ts[|ts| - 1].key == Some(k))
  {
    var init := ts[..|ts| - 1];
    forall k | HasGroup(ts, k) && !(ts[|ts| - 1].kept && ts[|ts| - 1].key == Some(k))
      ensures HasGroup(init, k)
    {
      var i :| 0 <= i < |ts| && ts[i].kept && ts[i].key == Some(k);
      assert init[i] == ts[i];
    }
    forall k | HasGroup(init, k)
      ensures HasGroup(ts, k)
    {
      var i :| 0 <= i < |init| && init[i].kept && init[i].key == Some(k);
      assert ts[i] == init[i];
    }
  }

  lemma CountedSnoc(ts: seq<Tally>)
    requires |ts| > 0
    ensures forall k ::
      |Counted(ts, k)| == |Counted(ts[..|ts| - 1], k)| +
      (if ts[|ts| - 1].kept && ts[|ts| - 1].key == Some(k) && ts[|ts| - 1].memberId.Some? then 1 else 0)
  {
    var n := |ts| - 1;
    var init := ts[..n];
    forall k
      ensures |Counted(ts, k)| == |Counted(init, k)| +
        (if ts[n].kept && ts[n].key == Some(k) && ts[n].memberId.Some? then 1 else 0)
    {
      var last: set<int> := if ts[n].kept && ts[n].key == Some(k) && ts[n].memberId.Some? then {n} else {};
      assert Counted(ts, k) == Counted(init, k) + last;
      assert n !in Counted(init, k);
    }
  }

  /** A report cell: a count, or the text of the no-data placeholder. */
  datatype Cell = Count(n: nat) | Text(s: string)

  /** A two-column frame: the key column and one value column named `column`. */
  datatype Frame = Frame(column: string, cells: map<string, Cell>)

  /** `.reset_index().rename(columns={"member_id": column})` of a group count. */
  function CountFrame(column: string, counts: map<string, nat>): (f: Frame)
    ensures f.column == column && f.cells.Keys == counts.Keys
    ensures forall k :: k in counts ==> f.cells[k] == Count(counts[k])
  {
    Frame(column, map k | k in counts :: Count(counts[k]))
  }
}
