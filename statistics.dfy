/** The diagnosis-statistics query: the medical records treated within an
    inclusive date range, grouped by diagnosis, counted, ordered by count
    descending and limited to ten groups. */
module Statistics {
  import opened Entities
  import opened Ordering
  import opened Sequences

  /** The statistics row limit (LIMIT 10). */
  const MaxEntries: nat := 10

  datatype DiagnosisCount = DiagnosisCount(diagnosis: string, count: nat)

  /** DATE(m.treatment_date) BETWEEN start AND end */
  predicate InRange(m: MedicalRecord, start: Day, end: Day)
  {
    start <= m.treatedAt.day <= end
  }

  /** The records of `ms` in the range whose diagnosis is `d`. */
  function CountOf(ms: seq<MedicalRecord>, start: Day, end: Day, d: string): nat
  {
    if ms == [] then 0
    else
      var m := ms[|ms| - 1];
      CountOf(ms[..|ms| - 1], start, end, d) + (if InRange(m, start, end) && m.diagnosis == d then 1 else 0)
  }

  /** The records of `ms` in the range. */
  function RangeSize(ms: seq<MedicalRecord>, start: Day, end: Day): nat
  {
    if ms == [] then 0
    else RangeSize(ms[..|ms| - 1], start, end) + (if InRange(ms[|ms| - 1], start, end) then 1 else 0)
  }

  function Diagnoses(s: seq<DiagnosisCount>): set<string>
  {
    set g | g in s :: g.diagnosis
  }

  ghost predicate DistinctDiagnoses(s: seq<DiagnosisCount>)
  {
    forall i, j :: 0 <= i < j < |s| ==> s[i].diagnosis != s[j].diagnosis
  }

  /** `groups` is the GROUP BY of the records in the range: one entry per
      diagnosis that occurs there, carrying its COUNT(*). */
  ghost predicate IsGrouping(ms: seq<MedicalRecord>, start: Day, end: Day, groups: seq<DiagnosisCount>)
  {
    && DistinctDiagnoses(groups)
    && (forall g :: g in groups ==> g.count == CountOf(ms, start, end, g.diagnosis) && g.count > 0)
    && (forall d :: CountOf(ms, start, end, d) > 0 ==> d in Diagnoses(groups))
  }

  /** What the query promises: at most ten distinct diagnoses with their
      exact counts, counts never increasing along the list, and no diagnosis
      left out unless ten entries are listed that each occur at least as often. */
  ghost predicate IsDiagnosisRanking(ms: seq<MedicalRecord>, start: Day, end: Day, r: seq<DiagnosisCount>)
  {
    && |r| <= MaxEntries
    && DistinctDiagnoses(r)
    && (forall i :: 0 <= i < |r| ==> r[i].count == CountOf(ms, start, end, r[i].diagnosis) && r[i].count > 0)
    && (forall i :: 0 < i < |r| ==> r[i - 1].count >= r[i].count)
    && (forall d :: CountOf(ms, start, end, d) > 0 && d !in Diagnoses(r) ==>
          |r| == MaxEntries && CountOf(ms, start, end, d) <= r[MaxEntries - 1].count)
  }

  /** ORDER BY diagnosis_count DESC */
  predicate ByCountDesc(a: DiagnosisCount, b: DiagnosisCount) { a.count >= b.count }

  /** ORDER BY diagnosis_count DESC LIMIT 10, applied to the groups; groups
      with equal counts keep the order in which the groups were formed. */
  function TopGroups(groups: seq<DiagnosisCount>): seq<DiagnosisCount>
  {
    var sorted := SortBy(groups, ByCountDesc);
    if |sorted| <= MaxEntries then sorted else sorted[..MaxEntries]
  }

  lemma ByCountDescIsTotalPreorder()
    ensures TotalPreorder(ByCountDesc)
  {
  }

  predicate DiagnosesDiffer(a: DiagnosisCount, b: DiagnosisCount) { a.diagnosis != b.diagnosis }

  lemma DistinctIsPairwise(s: seq<DiagnosisCount>)
    ensures DistinctDiagnoses(s) <==> Pairwise(s, DiagnosesDiffer)
  {
  }

  /** Inserting an entry with a new diagnosis keeps the diagnoses distinct. */
  lemma InsertKeepsDistinct(x: DiagnosisCount, s: seq<DiagnosisCount>, le: (DiagnosisCount, DiagnosisCount) -> bool)
    requires DistinctDiagnoses(s)
    requires x.diagnosis !in Diagnoses(s)
    ensures DistinctDiagnoses(Insert(x, s, le))
  {
    DistinctIsPairwise(s);
    forall y | y in s
      ensures DiagnosesDiffer(x, y) && DiagnosesDiffer(y, x)
    {
    }
    InsertKeepsPairwise(x, s, le, DiagnosesDiffer);
    DistinctIsPairwise(Insert(x, s, le));
  }

  /** Sorting keeps the diagnoses distinct. */
  lemma {:induction false} SortKeepsDistinct(s: seq<DiagnosisCount>, le: (DiagnosisCount, DiagnosisCount) -> bool)
    requires DistinctDiagnoses(s)
    ensures DistinctDiagnoses(SortBy(s, le))
  {
    if s != [] {
      var tail := s[1..];
      assert DistinctDiagnoses(tail) by {
        forall i, j | 0 <= i < j < |tail|
          ensures tail[i].diagnosis != tail[j].diagnosis
        {
          assert tail[i] == s[i + 1] && tail[j] == s[j + 1];
        }
      }
      SortKeepsDistinct(tail, le);
      var sorted := SortBy(tail, le);
      assert s[0].diagnosis !in Diagnoses(sorted) by {
        forall g | g in sorted ensures g.diagnosis != s[0].diagnosis {
          assert g in multiset(tail);
          var k :| 0 <= k < |tail| && tail[k] == g;
          assert s[k + 1] == g;
        }
      }
      InsertKeepsDistinct(s[0], sorted, le);
    }
  }

  /** The groups ordered by count: the same entries, distinct, non-increasing. */
  lemma SortedGroups(groups: seq<DiagnosisCount>)
    requires DistinctDiagnoses(groups)
    ensures SortedBy(SortBy(groups, ByCountDesc), ByCountDesc)
    ensures DistinctDiagnoses(SortBy(groups, ByCountDesc))
    ensures forall g :: g in SortBy(groups, ByCountDesc) <==> g in groups
  {
    ByCountDescIsTotalPreorder();
    SortBySorted(groups, ByCountDesc);
    SortKeepsDistinct(groups, ByCountDesc);
    var sorted := SortBy(groups, ByCountDesc);
    assert forall g :: g in sorted <==> g in multiset(groups);
  }

  /** A diagnosis of the range missing from the first ten is outranked by all ten. */
  lemma TopGroupsComplete(ms: seq<MedicalRecord>, start: Day, end: Day, groups: seq<DiagnosisCount>, d: string)
    requires IsGrouping(ms, start, end, groups)
    requires CountOf(ms, start, end, d) > 0 && d !in Diagnoses(TopGroups(groups))
    ensures |TopGroups(groups)| == MaxEntries
    ensures CountOf(ms, start, end, d) <= TopGroups(groups)[MaxEntries - 1].count
  {
    SortedGroups(groups);
    var sorted := SortBy(groups, ByCountDesc);
    var r := TopGroups(groups);
    var g :| g in groups && g.diagnosis == d;
    var k :| 0 <= k < |sorted| && sorted[k] == g;
    if k < |r| {
      assert false;
    }
    assert ByCountDesc(sorted[MaxEntries - 1], sorted[k]);
  }

  /** The first ten of the groups ordered by count: distinct groups taken
      from `groups`, counts non-increasing. */
  lemma TopGroupsOrdered(groups: seq<DiagnosisCount>)
    requires DistinctDiagnoses(groups)
    ensures |TopGroups(groups)| <= MaxEntries
    ensures DistinctDiagnoses(TopGroups(groups))
    ensures forall g :: g in TopGroups(groups) ==> g in groups
    ensures forall i :: 0 < i < |TopGroups(groups)| ==> TopGroups(groups)[i - 1].count >= TopGroups(groups)[i].count
  {
    SortedGroups(groups);
    var sorted := SortBy(groups, ByCountDesc);
    var r := TopGroups(groups);
    assert |r| <= |sorted| && forall i :: 0 <= i < |r| ==> r[i] == sorted[i];
    forall g | g in r
      ensures g in groups
    {
      var k :| 0 <= k < |r| && r[k] == g;
      assert sorted[k] in sorted;
    }
    forall i | 0 < i < |r|
      ensures r[i - 1].count >= r[i].count
    {
      assert ByCountDesc(sorted[i - 1], sorted[i]);
    }
  }

  /** Ordering the groups by count and keeping the first ten answers the query. */
  lemma TopGroupsRanks(ms: seq<MedicalRecord>, start: Day, end: Day, groups: seq<DiagnosisCount>)
    requires IsGrouping(ms, start, end, groups)
    ensures IsDiagnosisRanking(ms, start, end, TopGroups(groups))
  {
    TopGroupsOrdered(groups);
    var r := TopGroups(groups);
    forall i | 0 <= i < |r|
      ensures r[i].count == CountOf(ms, start, end, r[i].diagnosis) && r[i].count > 0
    {
      assert r[i] in r;
    }
    forall d | CountOf(ms, start, end, d) > 0 && d !in Diagnoses(r)
      ensures |r| == MaxEntries && CountOf(ms, start, end, d) <= r[MaxEntries - 1].count
    {
      TopGroupsComplete(ms, start, end, groups, d);
    }
  }

  // ---------------------------------------------------------------------
  // The counts of distinct diagnoses never add up to more than the number
  // of records in the range.

  function TotalCount(r: seq<DiagnosisCount>): nat
  {
    if r == [] then 0 else r[0].count + TotalCount(r[1..])
  }

  /** The sum of CountOf over the diagnoses listed in `r`. */
  function CountsOver(r: seq<DiagnosisCount>, ms: seq<MedicalRecord>, start: Day, end: Day): nat
  {
    if r == [] then 0 else CountOf(ms, start, end, r[0].diagnosis) + CountsOver(r[1..], ms, start, end)
  }

  /** How many entries of `r` the record `m` is counted in. */
  function Hits(r: seq<DiagnosisCount>, m: MedicalRecord, start: Day, end: Day): nat
  {
    if r == [] then 0
    else (if InRange(m, start, end) && r[0].diagnosis == m.diagnosis then 1 else 0) + Hits(r[1..], m, start, end)
  }

  lemma {:induction false} DistinctTail(r: seq<DiagnosisCount>)
    requires r != [] && DistinctDiagnoses(r)
    ensures DistinctDiagnoses(r[1..])
    ensures r[0].diagnosis !in Diagnoses(r[1..])
  {
    var tail := r[1..];
    forall i, j | 0 <= i < j < |tail|
      ensures tail[i].diagnosis != tail[j].diagnosis
    {
      assert tail[i] == r[i + 1] && tail[j] == r[j + 1];
    }
    forall g | g in tail ensures g.diagnosis != r[0].diagnosis {
      var k :| 0 <= k < |tail| && tail[k] == g;
      assert r[k + 1] == g;
    }
  }

  /** A record is counted in at most one of several distinct diagnoses, and
      in none when it is out of range. */
  lemma {:induction false} HitsAtMostOne(r: seq<DiagnosisCount>, m: MedicalRecord, start: Day, end: Day)
    requires DistinctDiagnoses(r)
    ensures Hits(r, m, start, end) <= (if InRange(m, start, end) then 1 else 0)
    ensures m.diagnosis !in Diagnoses(r) ==> Hits(r, m, start, end) == 0
  {
    if r != [] {
      DistinctTail(r);
      HitsAtMostOne(r[1..], m, start, end);
    }
  }

  lemma {:induction false} CountsOverStep(r: seq<DiagnosisCount>, ms: seq<MedicalRecord>, m: MedicalRecord, start: Day, end: Day)
    ensures CountsOver(r, ms + [m], start, end) == CountsOver(r, ms, start, end) + Hits(r, m, start, end)
  {
    if r != [] {
      assert (ms + [m])[..|ms + [m]| - 1] == ms;
      CountsOverStep(r[1..], ms, m, start, end);
    }
  }

  lemma {:induction false} CountsOverBounded(r: seq<DiagnosisCount>, ms: seq<MedicalRecord>, start: Day, end: Day)
    requires DistinctDiagnoses(r)
    ensures CountsOver(r, ms, start, end) <= RangeSize(ms, start, end)
    decreases |ms|
  {
    if ms == [] {
      CountsOverOfNothing(r, start, end);
    } else {
      var init, m := ms[..|ms| - 1], ms[|ms| - 1];
      assert ms == init + [m];
      CountsOverBounded(r, init, start, end);
      CountsOverStep(r, init, m, start, end);
      HitsAtMostOne(r, m, start, end);
    }
  }

  lemma {:induction false} CountsOverOfNothing(r: seq<DiagnosisCount>, start: Day, end: Day)
    ensures CountsOver(r, [], start, end) == 0
  {
    if r != [] {
      CountsOverOfNothing(r[1..], start, end);
    }
  }

  lemma {:induction false} TotalIsCountsOver(r: seq<DiagnosisCount>, ms: seq<MedicalRecord>, start: Day, end: Day)
    requires forall i :: 0 <= i < |r| ==> r[i].count == CountOf(ms, start, end, r[i].diagnosis)
    ensures TotalCount(r) == CountsOver(r, ms, start, end)
  {
    if r != [] {
      assert forall i :: 0 <= i < |r[1..]| ==> r[1..][i] == r[i + 1];
      TotalIsCountsOver(r[1..], ms, start, end);
    }
  }

  /** The counts of a ranking add up to at most the records in the range. */
  lemma RankingTotalBounded(ms: seq<MedicalRecord>, start: Day, end: Day, r: seq<DiagnosisCount>)
    requires IsDiagnosisRanking(ms, start, end, r)
    ensures TotalCount(r) <= RangeSize(ms, start, end)
  {
    TotalIsCountsOver(r, ms, start, end);
    CountsOverBounded(r, ms, start, end);
  }

  // ---------------------------------------------------------------------
  // The query itself, and the LinkedHashMap its rows are put into.

  /** The diagnoses of the records in the range, each once, in the order
      in which they first occur. */
  function RangeDiagnoses(ms: seq<MedicalRecord>, start: Day, end: Day): (ds: seq<string>)
    ensures forall d :: d in ds <==> CountOf(ms, start, end, d) > 0
    ensures forall i, j :: 0 <= i < j < |ds| ==> ds[i] != ds[j]
  {
    if ms == [] then []
    else
      var ds := RangeDiagnoses(ms[..|ms| - 1], start, end);
      var m := ms[|ms| - 1];
      if InRange(m, start, end) && m.diagnosis !in ds then ds + [m.diagnosis] else ds
  }

  /** GROUP BY m.diagnosis with COUNT(*), over the records in the range. */
  function GroupByDiagnosis(ms: seq<MedicalRecord>, start: Day, end: Day): (groups: seq<DiagnosisCount>)
    ensures IsGrouping(ms, start, end, groups)
  {
    var ds := RangeDiagnoses(ms, start, end);
    var groups := seq(|ds|, i requires 0 <= i < |ds| => DiagnosisCount(ds[i], CountOf(ms, start, end, ds[i])));
    assert forall d :: d in ds ==> d in Diagnoses(groups) by {
      forall d | d in ds
        ensures d in Diagnoses(groups)
      {
        var i :| 0 <= i < |ds| && ds[i] == d;
        assert groups[i] in groups;
      }
    }
    groups
  }

  /** The rows the statistics query returns. */
  function DiagnosisStatistics(ms: seq<MedicalRecord>, start: Day, end: Day): (r: seq<DiagnosisCount>)
    ensures IsDiagnosisRanking(ms, start, end, r)
    ensures TotalCount(r) <= RangeSize(ms, start, end)
  {
    var groups := GroupByDiagnosis(ms, start, end);
    TopGroupsRanks(ms, start, end, groups);
    RankingTotalBounded(ms, start, end, TopGroups(groups));
    TopGroups(groups)
  }

  /** LinkedHashMap.put on entries kept in insertion order: a present key
      keeps its position and takes the new count, a new key goes last. */
  function Put(m: seq<DiagnosisCount>, d: string, c: nat): (r: seq<DiagnosisCount>)
    ensures d !in Diagnoses(m) ==> r == m + [DiagnosisCount(d, c)]
    ensures Diagnoses(r) == Diagnoses(m) + {d}
    ensures DiagnosisCount(d, c) in r
    ensures forall g :: g in m && g.diagnosis != d ==> g in r
    ensures forall g :: g in r ==> g == DiagnosisCount(d, c) || g in m
  {
    if m == [] then [DiagnosisCount(d, c)]
    else if m[0].diagnosis == d then [DiagnosisCount(d, c)] + m[1..]
    else
      assert m == [m[0]] + m[1..];
      [m[0]] + Put(m[1..], d, c)
  }
}
