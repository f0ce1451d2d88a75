/**
 * Hospital-acquired infections per hospital: each infection of the window is
 * joined to its member's inpatient stays, a stay counts when its discharge
 * lies within 7 days of the infection, only the nearest stay per infection is
 * kept, and the kept stays are counted per hospital. Infections whose member
 * has no kept stay are returned on the side.
 */
module Proximity {
  import opened Options
  import opened Calendar
  import opened MonthRange
  import opened Records
  import opened Aggregate

  /** The proximity window, in whole days. */
  const MaxGapDays: nat := 7

  /** A row of `infections LEFT JOIN inpatient ON member_id`. */
  datatype Joined = Joined(
    memberId: Option<string>,
    occurred: Option<CalDate>,
    dischargeDate: Option<CalDate>,
    facility: Option<string>)

  /** A joined row whose discharge lies within the window, with its day gap. */
  datatype Candidate = Candidate(row: Joined, gap: nat)

  predicate HospitalAcquiredIn(inf: Infection, p: MonthPair)
  {
    inf.whereAcquired == Some(AcquiredAtHospital) && InWindow(inf.occurred, p)
  }

  /** The window's hospital-acquired infections, in table order. */
  function PeriodInfections(rows: seq<Infection>, p: MonthPair): (r: seq<Infection>)
    ensures forall x :: x in r <==> x in rows && HospitalAcquiredIn(x, p)
    ensures forall x :: multiset(r)[x] == if HospitalAcquiredIn(x, p) then multiset(rows)[x] else 0
  {
    if |rows| == 0 then []
    else
      var init := PeriodInfections(rows[..|rows| - 1], p);
      var last := rows[|rows| - 1];
      assert rows == rows[..|rows| - 1] + [last];
      if HospitalAcquiredIn(last, p) then init + [last] else init
  }

  /** The stays a LEFT JOIN on member id pairs an infection with: NULL ids match nothing. */
  predicate SameMember(inf: Infection, s: Stay)
  {
    inf.memberId.Some? && s.memberId == inf.memberId
  }

  function JoinRows(inf: Infection, stays: seq<Stay>): (r: seq<Joined>)
    ensures forall j :: j in r <==>
      exists s :: s in stays && SameMember(inf, s) && j == Joined(inf.memberId, inf.occurred, s.dischargeDate, s.facility)
  {
    if |stays| == 0 then []
    else
      var init := JoinRows(inf, stays[..|stays| - 1]);
      var last := stays[|stays| - 1];
      assert stays == stays[..|stays| - 1] + [last];
      if SameMember(inf, last) then init + [Joined(inf.memberId, inf.occurred, last.dischargeDate, last.facility)]
      else init
  }

  /** The row of an infection that matched no stay: the stay's columns are NULL. */
  function Unjoined(inf: Infection): Joined
  {
    Joined(inf.memberId, inf.occurred, None, None)
  }

  /** A joined row of `inf`: one per stay of its member, or the NULL row when it has none. */
  ghost predicate JoinedFrom(j: Joined, inf: Infection, stays: seq<Stay>)
  {
    || (exists s :: s in stays && SameMember(inf, s) && j == Joined(inf.memberId, inf.occurred, s.dischargeDate, s.facility))
    || ((forall s :: s in stays ==> !SameMember(inf, s)) && j == Unjoined(inf))
  }

  /** The joined rows of one infection: its stays, or the NULL row when it has none. */
  function JoinOne(inf: Infection, stays: seq<Stay>): (r: seq<Joined>)
    ensures forall j :: j in r <==> JoinedFrom(j, inf, stays)
  {
    var rows := JoinRows(inf, stays);
    assert forall s :: s in stays && SameMember(inf, s) ==>
      Joined(inf.memberId, inf.occurred, s.dischargeDate, s.facility) in rows;
    if |rows| == 0 then
      [Unjoined(inf)]
    else
      assert !(forall s :: s in stays ==> !SameMember(inf, s)) by {
        assert rows[0] in rows;
      }
      rows
  }

  /** `infections LEFT JOIN inpatient ON member_id`, infection by infection. */
  function LeftJoin(infs: seq<Infection>, stays: seq<Stay>): (r: seq<Joined>)
    ensures forall j :: j in r <==> exists inf :: inf in infs && JoinedFrom(j, inf, stays)
  {
    if |infs| == 0 then []
    else
      var init := LeftJoin(infs[..|infs| - 1], stays);
      var last := infs[|infs| - 1];
      assert infs == infs[..|infs| - 1] + [last];
      init + JoinOne(last, stays)
  }

  /** `abs(date_time_occurred - discharge_date).days`; NULL when either date is NULL. */
  function Gap(j: Joined): Option<nat>
  {
    if j.occurred.Some? && j.dischargeDate.Some? then Some(DayDistance(j.occurred.value, j.dischargeDate.value))
    else None
  }

  predicate Within(j: Joined)
  {
    Gap(j).Some? && Gap(j).value <= MaxGapDays
  }

  /** The rows within the window, with their gaps, in join order. */
  function InRange(js: seq<Joined>): (r: seq<Candidate>)
    ensures forall c :: c in r <==> c.row in js && Within(c.row) && c.gap == Gap(c.row).value
  {
    if |js| == 0 then []
    else
      var init := InRange(js[..|js| - 1]);
      var last := js[|js| - 1];
      assert js == js[..|js| - 1] + [last];
      if Within(last) then init + [Candidate(last, Gap(last).value)] else init
  }

  predicate GapSorted(cs: seq<Candidate>)
  {
    forall i, j :: 0 <= i < j < |cs| ==> cs[i].gap <= cs[j].gap
  }

  /** A candidate no farther than everything of a gap-sorted sequence heads it in order. */
  lemma ConsGapSorted(h: Candidate, t: seq<Candidate>)
    requires GapSorted(t)
    requires forall i :: 0 <= i < |t| ==> h.gap <= t[i].gap
    ensures GapSorted([h] + t)
  {
    forall i, j | 0 <= i < j < |[h] + t|
      ensures ([h] + t)[i].gap <= ([h] + t)[j].gap
    {
      if i > 0 {
        assert ([h] + t)[i] == t[i - 1];
      }
      assert ([h] + t)[j] == t[j - 1];
    }
  }

  /** A lower bound on the gaps of `cs` and of `x` bounds every gap of their union. */
  lemma GapBound(b: nat, x: Candidate, cs: seq<Candidate>, r: seq<Candidate>)
    requires b <= x.gap
    requires forall i :: 0 <= i < |cs| ==> b <= cs[i].gap
    requires multiset(r) == multiset(cs) + multiset{x}
    ensures forall i :: 0 <= i < |r| ==> b <= r[i].gap
  {
    forall i | 0 <= i < |r|
      ensures b <= r[i].gap
    {
      assert r[i] in multiset(r);
      if r[i] != x {
        assert r[i] in multiset(cs);
        var k :| 0 <= k < |cs| && cs[k] == r[i];
      }
    }
  }

  /** The tail of a gap-sorted sequence is gap-sorted and bounded below by the head. */
  lemma SortedTail(cs: seq<Candidate>)
    requires GapSorted(cs) && |cs| > 0
    ensures GapSorted(cs[1..])
    ensures forall i :: 0 <= i < |cs[1..]| ==> cs[0].gap <= cs[1..][i].gap
  {
    forall i | 0 <= i < |cs[1..]|
      ensures cs[0].gap <= cs[1..][i].gap
    {
      assert cs[1..][i] == cs[i + 1];
    }
  }

  /** A candidate no farther than the head of a gap-sorted sequence is no farther than all of it. */
  lemma BelowHead(x: Candidate, cs: seq<Candidate>)
    requires GapSorted(cs)
    requires |cs| > 0 ==> x.gap <= cs[0].gap
    ensures forall i :: 0 <= i < |cs| ==> x.gap <= cs[i].gap
  {
  }

  function InsertByGap(x: Candidate, cs: seq<Candidate>): (r: seq<Candidate>)
    requires GapSorted(cs)
    ensures GapSorted(r)
    ensures multiset(r) == multiset(cs) + multiset{x}
    decreases |cs|
  {
    if |cs| == 0 || x.gap <= cs[0].gap then
      BelowHead(x, cs);
      ConsGapSorted(x, cs);
      [x] + cs
    else
      var t := cs[1..];
      SortedTail(cs);
      assert cs == [cs[0]] + t;
      var tail := InsertByGap(x, t);
      GapBound(cs[0].gap, x, t, tail);
      ConsGapSorted(cs[0], tail);
      [cs[0]] + tail
  }

  /** `sort_values("days_between_hosp_and_inf")`: the same candidates, gaps ascending. */
  function SortByGap(cs: seq<Candidate>): (r: seq<Candidate>)
    ensures GapSorted(r)
    ensures multiset(r) == multiset(cs)
    decreases |cs|
  {
    if |cs| == 0 then []
    else
      assert cs == [cs[0]] + cs[1..];
      InsertByGap(cs[0], SortByGap(cs[1..]))
  }

  /** `drop_duplicates` is keyed on member id and infection date. */
  function KeyOf(c: Candidate): (Option<string>, Option<CalDate>)
  {
    (c.row.memberId, c.row.occurred)
  }

  predicate FirstOfKey(cs: seq<Candidate>, k: nat)
    requires k < |cs|
  {
    forall m :: 0 <= m < k ==> KeyOf(cs[m]) != KeyOf(cs[k])
  }

  /** Whether some candidate of `r` has key `key`. */
  predicate HasKey(r: seq<Candidate>, key: (Option<string>, Option<CalDate>))
  {
    exists i :: 0 <= i < |r| && KeyOf(r[i]) == key
  }

  /** `drop_duplicates([member_id, date_time_occurred], keep="first")`. */
  function DropDuplicates(cs: seq<Candidate>): (r: seq<Candidate>)
  {
    if |cs| == 0 then []
    else
      var r := DropDuplicates(cs[..|cs| - 1]);
      if HasKey(r, KeyOf(cs[|cs| - 1])) then r
      else r + [cs[|cs| - 1]]
  }

  /** Each of `r` is the first candidate of `cs` with its key. */
  ghost predicate FirstsOf(cs: seq<Candidate>, r: seq<Candidate>)
  {
    forall i :: 0 <= i < |r| ==> FirstIn(cs, r[i])
  }

  /** `x` is the first candidate of `cs` with its key. */
  ghost predicate FirstIn(cs: seq<Candidate>, x: Candidate)
  {
    exists k :: 0 <= k < |cs| && cs[k] == x && FirstOfKey(cs, k)
  }

  predicate DistinctKeys(r: seq<Candidate>)
  {
    forall i, j :: 0 <= i < j < |r| ==> KeyOf(r[i]) != KeyOf(r[j])
  }

  /** Every key of `cs` is the key of some element of `r`. */
  ghost predicate CoversKeys(cs: seq<Candidate>, r: seq<Candidate>)
  {
    forall c :: c in cs ==> HasKey(r, KeyOf(c))
  }

  /** `drop_duplicates` leaves at most one candidate per key. */
  lemma {:induction false} DropDuplicatesDistinct(cs: seq<Candidate>)
    ensures DistinctKeys(DropDuplicates(cs))
  {
    if |cs| > 0 {
      var n := |cs| - 1;
      var r0 := DropDuplicates(cs[..n]);
      DropDuplicatesDistinct(cs[..n]);
      if !HasKey(r0, KeyOf(cs[n])) {
        var r := r0 + [cs[n]];
        forall i, j | 0 <= i < j < |r|
          ensures KeyOf(r[i]) != KeyOf(r[j])
        {
          assert r[i] == r0[i];
          if j < |r0| {
            assert r[j] == r0[j];
          }
        }
      }
    }
  }

  /** `drop_duplicates` loses no key. */
  lemma {:induction false} DropDuplicatesCovers(cs: seq<Candidate>)
    ensures CoversKeys(cs, DropDuplicates(cs))
  {
    if |cs| > 0 {
      var n := |cs| - 1;
      var init := cs[..n];
      var r0 := DropDuplicates(init);
      var r := DropDuplicates(cs);
      assert cs == init + [cs[n]];
      DropDuplicatesCovers(init);
      forall c | c in cs
        ensures HasKey(r, KeyOf(c))
      {
        if c == cs[n] {
          if !HasKey(r0, KeyOf(c)) {
            assert r[|r0|] == c;
          }
        } else {
          assert c in init;
          var i :| 0 <= i < |r0| && KeyOf(r0[i]) == KeyOf(c);
          assert r[i] == r0[i];
        }
      }
    }
  }

  /** A first occurrence in a prefix is a first occurrence in the whole. */
  lemma FirstOfKeyInPrefix(cs: seq<Candidate>, n: nat, k: nat)
    requires k < n <= |cs|
    requires FirstOfKey(cs[..n], k)
    ensures FirstOfKey(cs, k)
  {
    forall m | 0 <= m < k
      ensures KeyOf(cs[m]) != KeyOf(cs[k])
    {
      assert cs[m] == cs[..n][m] && cs[k] == cs[..n][k];
    }
  }

  /** The last candidate is first of its key when the prefix's survivors lack that key. */
  lemma NewKeyIsFirst(cs: seq<Candidate>)
    requires |cs| > 0
    requires !HasKey(DropDuplicates(cs[..|cs| - 1]), KeyOf(cs[|cs| - 1]))
    ensures FirstOfKey(cs, |cs| - 1)
  {
    var n := |cs| - 1;
    DropDuplicatesCovers(cs[..n]);
    forall m | 0 <= m < n
      ensures KeyOf(cs[m]) != KeyOf(cs[n])
    {
      assert cs[m] == cs[..n][m];
      assert cs[m] in cs[..n];
    }
  }

  /** Survivors that were firsts of a prefix stay firsts of the whole. */
  lemma FirstsOfPrefix(cs: seq<Candidate>, n: nat, r0: seq<Candidate>)
    requires n <= |cs|
    requires FirstsOf(cs[..n], r0)
    ensures FirstsOf(cs, r0)
  {
    var init := cs[..n];
    forall i | 0 <= i < |r0|
      ensures FirstIn(cs, r0[i])
    {
      assert FirstIn(init, r0[i]);
      var k :| 0 <= k < |init| && init[k] == r0[i] && FirstOfKey(init, k);
      FirstOfKeyInPrefix(cs, n, k);
      assert cs[k] == init[k];
    }
  }

  /** `drop_duplicates` keeps, of each key, the first candidate. */
  lemma {:induction false} DropDuplicatesKeepsFirst(cs: seq<Candidate>)
    ensures FirstsOf(cs, DropDuplicates(cs))
  {
    if |cs| > 0 {
      var n := |cs| - 1;
      var init := cs[..n];
      var r0 := DropDuplicates(init);
      DropDuplicatesKeepsFirst(init);
      FirstsOfPrefix(cs, n, r0);
      if !HasKey(r0, KeyOf(cs[n])) {
        var r := r0 + [cs[n]];
        assert DropDuplicates(cs) == r;
        NewKeyIsFirst(cs);
        forall i | 0 <= i < |r|
          ensures FirstIn(cs, r[i])
        {
          if i < |r0| {
            assert r[i] == r0[i];
          } else {
            assert cs[n] == r[i] && FirstOfKey(cs, n);
          }
        }
      }
    }
  }

  /** The matcher's pipeline: in-range candidates, sorted by gap, first per key. */
  function KeepNearest(js: seq<Joined>): (r: seq<Candidate>)
  {
    DropDuplicates(SortByGap(InRange(js)))
  }

  /** Every kept candidate is a joined row within 7 days, with its own gap. */
  lemma KeptWithin(js: seq<Joined>)
    ensures var r := KeepNearest(js);
      forall i :: 0 <= i < |r| ==>
        r[i].row in js && Within(r[i].row) && r[i].gap == Gap(r[i].row).value && r[i].gap <= MaxGapDays
  {
    var candidates := InRange(js);
    var sorted := SortByGap(candidates);
    var r := DropDuplicates(sorted);
    DropDuplicatesKeepsFirst(sorted);
    forall i | 0 <= i < |r|
      ensures r[i] in candidates
    {
      assert FirstIn(sorted, r[i]);
      var k :| 0 <= k < |sorted| && sorted[k] == r[i] && FirstOfKey(sorted, k);
      assert r[i] in multiset(sorted);
    }
  }

  /** Every (member, infection date) with a row within 7 days keeps a candidate. */
  lemma KeptCovers(js: seq<Joined>)
    ensures forall j :: j in js && Within(j) ==> HasKey(KeepNearest(js), (j.memberId, j.occurred))
  {
    var candidates := InRange(js);
    var sorted := SortByGap(candidates);
    DropDuplicatesCovers(sorted);
    forall j | j in js && Within(j)
      ensures HasKey(KeepNearest(js), (j.memberId, j.occurred))
    {
      var c := Candidate(j, Gap(j).value);
      assert c in candidates;
      assert c in multiset(sorted);
      assert KeyOf(c) == (j.memberId, j.occurred);
    }
  }

  /** A kept candidate has the smallest gap among the rows of its key. */
  lemma KeptNearest(js: seq<Joined>)
    ensures var r := KeepNearest(js);
      forall i, j :: 0 <= i < |r| && j in js && Within(j) && KeyOf(r[i]) == (j.memberId, j.occurred) ==>
        r[i].gap <= Gap(j).value
  {
    var candidates := InRange(js);
    var sorted := SortByGap(candidates);
    var r := DropDuplicates(sorted);
    DropDuplicatesKeepsFirst(sorted);
    forall i, j | 0 <= i < |r| && j in js && Within(j) && KeyOf(r[i]) == (j.memberId, j.occurred)
      ensures r[i].gap <= Gap(j).value
    {
      var c := Candidate(j, Gap(j).value);
      assert c in candidates;
      assert c in multiset(sorted);
      var m :| 0 <= m < |sorted| && sorted[m] == c;
      assert FirstIn(sorted, r[i]);
      var k :| 0 <= k < |sorted| && sorted[k] == r[i] && FirstOfKey(sorted, k);
      FirstIsNearest(sorted, k, m);
    }
  }

  /** In gap order, the first candidate of a key has the smallest gap of that key. */
  lemma FirstIsNearest(sorted: seq<Candidate>, k: nat, m: nat)
    requires GapSorted(sorted)
    requires k < |sorted| && m < |sorted|
    requires FirstOfKey(sorted, k) && KeyOf(sorted[m]) == KeyOf(sorted[k])
    ensures sorted[k].gap <= sorted[m].gap
  {
  }

  /**
   * The candidates the matcher keeps: every one is a joined row within 7
   * days of its infection, at most one per (member, infection date), one
   * for every key that has an in-range row, each with the smallest gap of
   * its key.
   */
  lemma KeepNearestMinimal(js: seq<Joined>)
    ensures var r := KeepNearest(js);
      && (forall i :: 0 <= i < |r| ==>
            r[i].row in js && Within(r[i].row) && r[i].gap == Gap(r[i].row).value && r[i].gap <= MaxGapDays)
      && DistinctKeys(r)
      && (forall j :: j in js && Within(j) ==> HasKey(r, (j.memberId, j.occurred)))
      && (forall i, j :: 0 <= i < |r| && j in js && Within(j) && KeyOf(r[i]) == (j.memberId, j.occurred) ==>
            r[i].gap <= Gap(j).value)
  {
    KeptWithin(js);
    DropDuplicatesDistinct(SortByGap(InRange(js)));
    KeptCovers(js);
    KeptNearest(js);
  }

  /** Whether some kept candidate belongs to member `id`: the matching is by member only. */
  predicate MemberKept(id: Option<string>, kept: seq<Candidate>)
  {
    exists i :: 0 <= i < |kept| && kept[i].row.memberId == id
  }

  /** The infections whose member has no kept candidate, in order. */
  function Unmatched(infs: seq<Infection>, kept: seq<Candidate>): (r: seq<Infection>)
    ensures forall x :: x in r <==> x in infs && !MemberKept(x.memberId, kept)
    ensures forall x :: multiset(r)[x] == if MemberKept(x.memberId, kept) then 0 else multiset(infs)[x]
    ensures |r| <= |infs|
  {
    if |infs| == 0 then []
    else
      var init := Unmatched(infs[..|infs| - 1], kept);
      var last := infs[|infs| - 1];
      assert infs == infs[..|infs| - 1] + [last];
      if MemberKept(last.memberId, kept) then init else init + [last]
  }

  /** The outcome of one window: the no-data placeholder, or counts plus the unmatched infections. */
  datatype InfectionReport =
    | NoData
    | Matched(frame: Frame, unmatched: seq<Infection>)

  const InfectionsColumn: string := "infections"

  /**
   * The window's hospital-acquired infections matched to inpatient stays.
   * With no joined row carrying a day gap the result is the placeholder;
   * otherwise the `infections` column counts the kept candidates per
   * hospital, and the unmatched list holds exactly the window's infections
   * whose member has no kept candidate.
   */
  function InfectionsByHosp(db: Db, p: MonthPair): (r: InfectionReport)
    ensures var js := LeftJoin(PeriodInfections(db.infections, p), db.inpatient);
      r.NoData? <==> forall j :: j in js ==> Gap(j).None?
    ensures r.Matched? ==>
      var js := LeftJoin(PeriodInfections(db.infections, p), db.inpatient);
      var kept := KeepNearest(js);
      && r.frame.column == InfectionsColumn
      && (forall f :: f in r.frame.cells <==> exists i :: 0 <= i < |kept| && kept[i].row.facility == Some(f))
      && (forall f :: f in r.frame.cells ==>
            r.frame.cells[f] == Count(|set i | 0 <= i < |kept| && kept[i].row.facility == Some(f)|))
      && (forall x :: x in r.unmatched <==>
            x in db.infections && HospitalAcquiredIn(x, p) && !MemberKept(x.memberId, kept))
      && (forall x :: multiset(r.unmatched)[x] ==
            if HospitalAcquiredIn(x, p) && !MemberKept(x.memberId, kept) then multiset(db.infections)[x] else 0)
  {
    var infs := PeriodInfections(db.infections, p);
    var js := LeftJoin(infs, db.inpatient);
    if forall j :: j in js ==> Gap(j).None? then NoData
    else
      var kept := KeepNearest(js);
      KeptHaveMembers(infs, db.inpatient, kept);
      UnmatchedOfPeriod(db.infections, p, kept);
      Matched(KeptFrame(kept), Unmatched(infs, kept))
  }

  /** `groupby("facility").count()["member_id"]` of the kept candidates, as the `infections` column. */
  function KeptFrame(kept: seq<Candidate>): (f: Frame)
    requires forall i :: 0 <= i < |kept| ==> kept[i].row.memberId.Some?
    ensures f.column == InfectionsColumn
    ensures forall h :: h in f.cells <==> exists i :: 0 <= i < |kept| && kept[i].row.facility == Some(h)
    ensures forall h :: h in f.cells ==>
      f.cells[h] == Count(|set i | 0 <= i < |kept| && kept[i].row.facility == Some(h)|)
  {
    var ts := seq(|kept|, i requires 0 <= i < |kept| => Tally(kept[i].row.facility, kept[i].row.memberId, true));
    KeptTallyView(kept, ts);
    CountFrame(InfectionsColumn, GroupCount(ts))
  }

  /** The unmatched list of a window: its infections whose member has no kept row, with their multiplicity. */
  lemma UnmatchedOfPeriod(rows: seq<Infection>, p: MonthPair, kept: seq<Candidate>)
    ensures var u := Unmatched(PeriodInfections(rows, p), kept);
      && (forall x :: x in u <==> x in rows && HospitalAcquiredIn(x, p) && !MemberKept(x.memberId, kept))
      && (forall x :: multiset(u)[x] ==
            if HospitalAcquiredIn(x, p) && !MemberKept(x.memberId, kept) then multiset(rows)[x] else 0)
  {
  }

  lemma KeptTallyView(kept: seq<Candidate>, ts: seq<Tally>)
    requires |ts| == |kept|
    requires forall i :: 0 <= i < |kept| ==> kept[i].row.memberId.Some?
    requires forall i :: 0 <= i < |kept| ==> ts[i] == Tally(kept[i].row.facility, kept[i].row.memberId, true)
    ensures forall f :: HasGroup(ts, f) <==> exists i :: 0 <= i < |kept| && kept[i].row.facility == Some(f)
    ensures forall f :: Counted(ts, f) == set i | 0 <= i < |kept| && kept[i].row.facility == Some(f)
  {
    forall f | exists i :: 0 <= i < |kept| && kept[i].row.facility == Some(f)
      ensures HasGroup(ts, f)
    {
      var i :| 0 <= i < |kept| && kept[i].row.facility == Some(f);
      assert ts[i].kept && ts[i].key == Some(f);
    }
  }

  /** A joined row with a discharge date came from a stay of a known member. */
  lemma DischargedRowHasMember(j: Joined, infs: seq<Infection>, stays: seq<Stay>)
    requires j in LeftJoin(infs, stays)
    requires j.dischargeDate.Some?
    ensures j.memberId.Some?
  {
    var inf :| inf in infs && JoinedFrom(j, inf, stays);
    assert j != Unjoined(inf);
  }

  /** A kept candidate has a discharge date, so it came from a stay of a known member. */
  lemma KeptHaveMembers(infs: seq<Infection>, stays: seq<Stay>, kept: seq<Candidate>)
    requires kept == KeepNearest(LeftJoin(infs, stays))
    ensures forall i :: 0 <= i < |kept| ==> kept[i].row.memberId.Some?
  {
    var js := LeftJoin(infs, stays);
    KeptWithin(js);
    forall i | 0 <= i < |kept|
      ensures kept[i].row.memberId.Some?
    {
      DischargedRowHasMember(kept[i].row, infs, stays);
    }
  }

  /** The frame the report joins for a window: the placeholder is `{facility: "None", infections: "None"}`. */
  function ReportFrame(r: InfectionReport): (f: Frame)
    ensures r.NoData? ==> f == Frame(InfectionsColumn, map["None" := Text("None")])
    ensures r.Matched? ==> f == r.frame
  {
    match r
    case NoData => Frame(InfectionsColumn, map["None" := Text("None")])
    case Matched(frame, _) => frame
  }

  /** The joined rows of the two-stay example below. */
  lemma {:induction false} ExampleJoin(db: Db, p: MonthPair, inf: Infection, h1: Stay, h2: Stay, j1: Joined, j2: Joined)
    requires p == MonthPair(Date(2024, 3, 1), Date(2024, 3, 31))
    requires inf == Infection(Some("m1"), Some(AcquiredAtHospital), Some(Date(2024, 3, 10)))
    requires h1 == Stay(Some("m1"), Some("H1"), None, None, Some(Date(2024, 3, 7)), None)
    requires h2 == Stay(Some("m1"), Some("H2"), None, None, Some(Date(2024, 3, 15)), None)
    requires db == Db([], [], [h1, h2], [], [inf], [])
    requires j1 == Joined(Some("m1"), Some(Date(2024, 3, 10)), Some(Date(2024, 3, 7)), Some("H1"))
    requires j2 == Joined(Some("m1"), Some(Date(2024, 3, 10)), Some(Date(2024, 3, 15)), Some("H2"))
    ensures PeriodInfections(db.infections, p) == [inf]
    ensures LeftJoin([inf], db.inpatient) == [j1, j2]
  {
    assert [inf][..0] == [];
    assert JoinRows(inf, [h1]) == [j1];
    assert JoinRows(inf, [h1, h2]) == [j1, j2] by {
      assert [h1, h2][..1] == [h1];
    }
  }

  /** Of the two in-range rows of one infection, the matcher keeps the nearer one. */
  lemma {:induction false} ExampleKeep(j1: Joined, j2: Joined)
    requires j1 == Joined(Some("m1"), Some(Date(2024, 3, 10)), Some(Date(2024, 3, 7)), Some("H1"))
    requires j2 == Joined(Some("m1"), Some(Date(2024, 3, 10)), Some(Date(2024, 3, 15)), Some("H2"))
    ensures KeepNearest([j1, j2]) == [Candidate(j1, 3)]
  {
    ExampleGaps(j1, j2);
    NearerOfTwoKept(j1, j2);
  }

  /** The day gaps of the example: 3 days to H1, 5 days to H2. */
  lemma ExampleGaps(j1: Joined, j2: Joined)
    requires j1 == Joined(Some("m1"), Some(Date(2024, 3, 10)), Some(Date(2024, 3, 7)), Some("H1"))
    requires j2 == Joined(Some("m1"), Some(Date(2024, 3, 10)), Some(Date(2024, 3, 15)), Some("H2"))
    ensures Gap(j1) == Some(3) && Gap(j2) == Some(5)
  {
    assert DayNumber(Date(2024, 3, 10)) - DayNumber(Date(2024, 3, 7)) == 3;
    assert DayNumber(Date(2024, 3, 15)) - DayNumber(Date(2024, 3, 10)) == 5;
  }

  /**
   * Two rows of the same infection, both within range, the first strictly
   * nearer: only the first is kept, with its gap.
   */
  lemma {:induction false} NearerOfTwoKept(j1: Joined, j2: Joined)
    requires Within(j1) && Within(j2) && Gap(j1).value < Gap(j2).value
    requires j1.memberId == j2.memberId && j1.occurred == j2.occurred
    ensures KeepNearest([j1, j2]) == [Candidate(j1, Gap(j1).value)]
  {
    var c1 := Candidate(j1, Gap(j1).value);
    var c2 := Candidate(j2, Gap(j2).value);
    BothInRange(j1, j2);
    OrderedPairSorted(c1, c2);
    SameKeyPairDropped(c1, c2);
  }

  lemma {:induction false} BothInRange(j1: Joined, j2: Joined)
    requires Within(j1) && Within(j2)
    ensures InRange([j1, j2]) == [Candidate(j1, Gap(j1).value), Candidate(j2, Gap(j2).value)]
  {
    assert InRange([j1]) == [Candidate(j1, Gap(j1).value)] by {
      assert [j1][..0] == [];
    }
    assert [j1, j2][..1] == [j1];
  }

  lemma {:induction false} OrderedPairSorted(c1: Candidate, c2: Candidate)
    requires c1.gap <= c2.gap
    ensures SortByGap([c1, c2]) == [c1, c2]
  {
    assert [c2][1..] == [];
    assert SortByGap([c2]) == [c2];
    assert [c1, c2][1..] == [c2];
  }

  lemma {:induction false} SameKeyPairDropped(c1: Candidate, c2: Candidate)
    requires KeyOf(c1) == KeyOf(c2)
    ensures DropDuplicates([c1, c2]) == [c1]
  {
    assert DropDuplicates([c1]) == [c1] by {
      assert [c1][..0] == [];
    }
    assert [c1, c2][..1] == [c1];
    assert HasKey([c1], KeyOf(c2)) by {
      assert KeyOf([c1][0]) == KeyOf(c2);
    }
  }

  /**
   * An infection on 2024-03-10 whose member left hospital H1 on 2024-03-07
   * and hospital H2 on 2024-03-15 is charged to H1 only, the nearer
   * discharge, and is not reported as unmatched.
   */
  lemma {:induction false} NearestHospitalExample(db: Db, p: MonthPair, inf: Infection, h1: Stay, h2: Stay)
    requires p == MonthPair(Date(2024, 3, 1), Date(2024, 3, 31))
    requires inf == Infection(Some("m1"), Some(AcquiredAtHospital), Some(Date(2024, 3, 10)))
    requires h1 == Stay(Some("m1"), Some("H1"), None, None, Some(Date(2024, 3, 7)), None)
    requires h2 == Stay(Some("m1"), Some("H2"), None, None, Some(Date(2024, 3, 15)), None)
    requires db == Db([], [], [h1, h2], [], [inf], [])
    ensures InfectionsByHosp(db, p) == Matched(Frame(InfectionsColumn, map["H1" := Count(1)]), [])
  {
    var j1 := Joined(Some("m1"), Some(Date(2024, 3, 10)), Some(Date(2024, 3, 7)), Some("H1"));
    var j2 := Joined(Some("m1"), Some(Date(2024, 3, 10)), Some(Date(2024, 3, 15)), Some("H2"));
    ExampleJoin(db, p, inf, h1, h2, j1, j2);
    ExampleKeep(j1, j2);
    OneKeptReport(db, p, inf, Candidate(j1, 3), "H1");
  }

  /**
   * A window with one infection whose rows keep exactly one candidate, of
   * the same member, reports that candidate's hospital with count 1 and
   * nothing unmatched.
   */
  lemma OneKeptReport(db: Db, p: MonthPair, inf: Infection, c: Candidate, f: string)
    requires PeriodInfections(db.infections, p) == [inf]
    requires KeepNearest(LeftJoin([inf], db.inpatient)) == [c]
    requires c.row in LeftJoin([inf], db.inpatient) && Gap(c.row).Some?
    requires c.row.facility == Some(f) && c.row.memberId == inf.memberId
    ensures InfectionsByHosp(db, p) == Matched(Frame(InfectionsColumn, map[f := Count(1)]), [])
  {
    var r := InfectionsByHosp(db, p);
    assert r.Matched?;
    OneKeptFrame(r.frame, c, f);
    OneKeptNoneUnmatched(inf, c);
    assert r.unmatched == Unmatched([inf], [c]);
  }

  /** A frame counting the one kept candidate per hospital holds that candidate's hospital with 1. */
  lemma OneKeptFrame(frame: Frame, c: Candidate, f: string)
    requires frame.column == InfectionsColumn
    requires forall g :: g in frame.cells <==> exists i :: 0 <= i < |[c]| && [c][i].row.facility == Some(g)
    requires forall g :: g in frame.cells ==>
      frame.cells[g] == Count(|set i | 0 <= i < |[c]| && [c][i].row.facility == Some(g)|)
    requires c.row.facility == Some(f)
    ensures frame == Frame(InfectionsColumn, map[f := Count(1)])
  {
    var kept := [c];
    assert frame.cells.Keys == {f} by {
      assert kept[0].row.facility == Some(f);
    }
    assert (set i | 0 <= i < |kept| && kept[i].row.facility == Some(f)) == {0};
    SingletonCells(frame.cells, f, Count(1));
  }

  /** An infection whose member has a kept candidate leaves nothing unmatched. */
  lemma OneKeptNoneUnmatched(inf: Infection, c: Candidate)
    requires c.row.memberId == inf.memberId
    ensures Unmatched([inf], [c]) == []
  {
    assert MemberKept(inf.memberId, [c]) by {
      assert [c][0].row.memberId == inf.memberId;
    }
    assert [inf][..0] == [];
  }

  /**
   * With no inpatient stays every infection joins only to NULLs, so every
   * window reports the placeholder frame.
   */
  lemma NoStaysPlaceholder(db: Db, p: MonthPair)
    requires db.inpatient == []
    ensures InfectionsByHosp(db, p) == NoData
    ensures ReportFrame(InfectionsByHosp(db, p)).cells == map["None" := Text("None")]
  {
    var js := LeftJoin(PeriodInfections(db.infections, p), db.inpatient);
    forall j | j in js
      ensures Gap(j).None?
    {
      var inf :| inf in PeriodInfections(db.infections, p) && JoinedFrom(j, inf, db.inpatient);
      assert j == Unjoined(inf);
    }
  }

  /** A map with one key is the one-entry map. */
  lemma SingletonCells(m: map<string, Cell>, k: string, v: Cell)
    requires m.Keys == {k} && m[k] == v
    ensures m == map[k := v]
  {
  }
}
