/** What the three dashboards share: the `usuario_valido` flag, the sorted
    score lists built at load time, the slider defaults, the week buckets
    and `groupby(week).size()`. */
module Dashboard {
  import opened Results
  import opened Tables
  import opened Calendar
  import opened DataTransformation

  /** A row of `teachers` as a dashboard holds it, with `usuario_valido`. */
  datatype DashTeacher = DashTeacher(row: Teacher, valid: bool)

  /** A row of `entries` with the week bucket the dashboard derives. */
  datatype DashEntry = DashEntry(row: Entry, week: Instant)

  /** `teachers['usuario_valido'] = teachers['selectedstages'].notna()`. */
  function MarkValidity(ts: seq<Teacher>): (r: seq<DashTeacher>)
    ensures |r| == |ts|
    ensures forall i :: 0 <= i < |ts| ==> r[i].row == ts[i] && (r[i].valid <==> ts[i].dim.selectedStages.Some?)
  {
    seq(|ts|, i requires 0 <= i < |ts| => DashTeacher(ts[i], ts[i].dim.selectedStages.Some?))
  }

  function TeacherRows(ds: seq<DashTeacher>): (r: seq<Teacher>)
    ensures |r| == |ds| && forall i :: 0 <= i < |ds| ==> r[i] == ds[i].row
  {
    seq(|ds|, i requires 0 <= i < |ds| => ds[i].row)
  }

  lemma RowsOfMarked(ts: seq<Teacher>)
    ensures TeacherRows(MarkValidity(ts)) == ts
  {
  }

  /** A marked row is valid exactly when its teacher selected stages. */
  lemma MarkedMembers(ts: seq<Teacher>)
    ensures forall d: DashTeacher :: d in MarkValidity(ts) <==> d.row in ts && (d.valid <==> d.row.dim.selectedStages.Some?)
  {
    var r := MarkValidity(ts);
    forall d: DashTeacher | d.row in ts && (d.valid <==> d.row.dim.selectedStages.Some?)
      ensures d in r
    {
      var i :| 0 <= i < |ts| && ts[i] == d.row;
      assert r[i] == d;
    }
  }

  /** The loading step shared by app.py and explanatory.py: rows with a
      Frequency of 9000 or more are dropped, then `usuario_valido` is added. */
  const FrequencyCap: nat := 9000

  function CappedTeachers(table: seq<Teacher>): (r: seq<DashTeacher>)
    ensures SubseqOf(TeacherRows(r), table)
    ensures forall d: DashTeacher :: d in r <==>
      d.row in table && d.row.rfm.frequency < FrequencyCap && (d.valid <==> d.row.dim.selectedStages.Some?)
    ensures forall t: Teacher :: multiset(TeacherRows(r))[t] == if t.rfm.frequency < FrequencyCap then multiset(table)[t] else 0
  {
    var kept := Select(table, (t: Teacher) => t.rfm.frequency < FrequencyCap);
    RowsOfMarked(kept);
    MarkedMembers(kept);
    MarkValidity(kept)
  }

  /** The score columns a dashboard lists. */
  datatype ScoreField = R | F | M | Rfm

  function ScoreOf(d: DashTeacher, field: ScoreField): int
  {
    match field
    case R => d.row.rfm.rScore
    case F => d.row.rfm.fScore
    case M => d.row.rfm.mScore
    case Rfm => d.row.rfm.score
  }

  function Column(ts: seq<DashTeacher>, field: ScoreField): (c: seq<int>)
    ensures |c| == |ts| && forall i :: 0 <= i < |ts| ==> c[i] == ScoreOf(ts[i], field)
  {
    seq(|ts|, i requires 0 <= i < |ts| => ScoreOf(ts[i], field))
  }

  /** `column.unique().tolist()`: each distinct value once, in order of first
      appearance: a value listed before another has already appeared
      wherever the other one occurs. */
  method Unique(column: seq<int>) returns (u: seq<int>)
    ensures Distinct(u)
    ensures forall x :: x in u <==> x in column
    ensures SubseqOf(u, column)
    ensures forall a, b, q :: 0 <= a < b < |u| && 0 <= q < |column| && column[q] == u[b] ==> u[a] in column[..q]
  {
    u := [];
    var i := 0;
    while i < |column|
      invariant 0 <= i <= |column|
      invariant Distinct(u)
      invariant forall x :: x in u <==> x in column[..i]
      invariant SubseqOf(u, column[..i])
      invariant forall a, b, q :: 0 <= a < b < |u| && 0 <= q < i && column[q] == u[b] ==> u[a] in column[..q]
    {
      if column[i] !in u {
        SubseqSnoc(u, column[..i], column[i]);
        u := u + [column[i]];
      } else {
        SubseqExtend(u, column[..i], column[i]);
      }
      assert column[..i + 1] == column[..i] + [column[i]];
      i := i + 1;
    }
    assert column[..|column|] == column;
  }

  lemma {:induction false} SubseqSnoc(r: seq<int>, s: seq<int>, x: int)
    requires SubseqOf(r, s)
    ensures SubseqOf(r + [x], s + [x])
    decreases |s|
  {
    if r == [] {
      SubseqOfLast(s, x);
      assert r + [x] == [x];
    } else {
      assert s != [];
      assert (r + [x])[1..] == r[1..] + [x];
      assert (s + [x])[1..] == s[1..] + [x];
      if r[0] == s[0] && SubseqOf(r[1..], s[1..]) {
        SubseqSnoc(r[1..], s[1..], x);
      } else {
        SubseqSnoc(r, s[1..], x);
      }
    }
  }

  lemma {:induction false} SubseqOfLast(s: seq<int>, x: int)
    ensures SubseqOf([x], s + [x])
    decreases |s|
  {
    if s != [] {
      assert (s + [x])[1..] == s[1..] + [x];
      SubseqOfLast(s[1..], x);
    } else {
      assert [x][1..] == [];
    }
  }

  lemma {:induction false} SubseqExtend(r: seq<int>, s: seq<int>, x: int)
    requires SubseqOf(r, s)
    ensures SubseqOf(r, s + [x])
    decreases |s|
  {
    if r != [] {
      assert s != [];
      assert (s + [x])[1..] == s[1..] + [x];
      if r[0] == s[0] && SubseqOf(r[1..], s[1..]) {
        SubseqExtend(r[1..], s[1..], x);
      } else {
        SubseqExtend(r, s[1..], x);
      }
    }
  }

  /** `list.sort()`: sorts the list in place, ascending, keeping its
      elements (an insertion sort). */
  method SortInPlace(a: array<int>)
    modifies a
    ensures forall i, j :: 0 <= i <= j < a.Length ==> a[i] <= a[j]
    ensures multiset(a[..]) == multiset(old(a[..]))
  {
    var i := 0;
    while i < a.Length
      invariant 0 <= i <= a.Length
      invariant forall p, q :: 0 <= p <= q < i ==> a[p] <= a[q]
      invariant multiset(a[..]) == multiset(old(a[..]))
    {
      var j := i;
      while j > 0 && a[j - 1] > a[j]
        invariant 0 <= j <= i
        invariant forall p, q :: 0 <= p <= q <= i && p != j && q != j ==> a[p] <= a[q]
        invariant forall k :: j < k <= i ==> a[j] <= a[k]
        invariant forall p, q :: 0 <= p < j < q <= i ==> a[p] <= a[q]
        invariant multiset(a[..]) == multiset(old(a[..]))
      {
        a[j - 1], a[j] := a[j], a[j - 1];
        j := j - 1;
      }
      i := i + 1;
    }
  }

  /** Sorting the distinct values yields them strictly ascending. */
  lemma SortedDistinctValues(u: seq<int>, r: seq<int>)
    requires Distinct(u) && multiset(r) == multiset(u)
    requires forall i, j :: 0 <= i <= j < |r| ==> r[i] <= r[j]
    ensures StrictlySorted(r)
    ensures forall x :: x in r <==> x in u
  {
    forall i, j | 0 <= i < j < |r|
      ensures r[i] < r[j]
    {
      if r[i] == r[j] {
        TwoOccurrences(r, i, j);
        assert r[i] in multiset(u);
        DistinctOnce(u, r[i]);
        assert false;
      }
    }
    forall x
      ensures x in r <==> x in u
    {
      assert x in r <==> x in multiset(r);
      assert x in u <==> x in multiset(u);
    }
  }

  /** `l = column.unique().tolist(); l.sort()`: the distinct values of the
      column in ascending order. */
  method ScoreList(column: seq<int>) returns (r: seq<int>)
    ensures StrictlySorted(r)
    ensures forall x :: x in r <==> x in column
    ensures r == SortedDistinct(column)
  {
    var u := Unique(column);
    var a := new int[|u|](i requires 0 <= i < |u| => u[i]);
    assert a[..] == u;
    SortInPlace(a);
    r := a[..];
    SortedDistinctValues(u, r);
    StrictlySortedUnique(r, SortedDistinct(column));
  }

  /** The four lists `r_score`, `f_score`, `m_score`, `rfm_score`. */
  method ScoreLists(ts: seq<DashTeacher>) returns (rs: seq<int>, fs: seq<int>, ms: seq<int>, rfms: seq<int>)
    ensures rs == SortedDistinct(Column(ts, R)) && fs == SortedDistinct(Column(ts, F))
    ensures ms == SortedDistinct(Column(ts, M)) && rfms == SortedDistinct(Column(ts, Rfm))
  {
    rs := ScoreList(Column(ts, R));
    fs := ScoreList(Column(ts, F));
    ms := ScoreList(Column(ts, M));
    rfms := ScoreList(Column(ts, Rfm));
  }

  /** `l[0]` and `l[-1]` of a sorted list of distinct values: its minimum and
      maximum; an empty list raises `IndexError`. The RFM slider of app2.py
      starts at these. */
  function Ends(l: seq<int>): (r: Option<(int, int)>)
    ensures r.None? <==> l == []
    ensures r.Some? && StrictlySorted(l) ==>
      r.value.0 in l && r.value.1 in l && forall x :: x in l ==> r.value.0 <= x <= r.value.1
  {
    if l == [] then None else Some((l[0], l[|l| - 1]))
  }

  /** The smallest value of a non-empty column (`Series.min()`). */
  function Min(s: seq<int>): (m: int)
    requires |s| > 0
    ensures m in s && forall x :: x in s ==> m <= x
  {
    if |s| == 1 then s[0]
    else
      var rest := Min(s[1..]);
      assert forall x :: x in s ==> x == s[0] || x in s[1..];
      if s[0] <= rest then s[0] else rest
  }

  /** The largest value of a non-empty column (`Series.max()`). */
  function Max(s: seq<int>): (m: int)
    requires |s| > 0
    ensures m in s && forall x :: x in s ==> x <= m
  {
    if |s| == 1 then s[0]
    else
      var rest := Max(s[1..]);
      assert forall x :: x in s ==> x == s[0] || x in s[1..];
      if s[0] >= rest then s[0] else rest
  }

  /** The smallest and largest value of a column: the default range of a
      slider; `None` for an empty column (pandas gives `NaT`). */
  function Range(s: seq<int>): (r: Option<(int, int)>)
    ensures r.None? <==> s == []
    ensures r.Some? ==> r.value.0 in s && r.value.1 in s && forall x :: x in s ==> r.value.0 <= x <= r.value.1
  {
    if s == [] then None else Some((Min(s), Max(s)))
  }

  /** The `semana_entrada` column. */
  function EntryWeeks(ts: seq<DashTeacher>): (c: seq<Instant>)
    ensures |c| == |ts| && forall i :: 0 <= i < |ts| ==> c[i] == ts[i].row.weekOfEntry
  {
    seq(|ts|, i requires 0 <= i < |ts| => ts[i].row.weekOfEntry)
  }

  /** The `semana_inicio` column. */
  function StartWeeks(es: seq<DashEntry>): (c: seq<Instant>)
    ensures |c| == |es| && forall i :: 0 <= i < |es| ==> c[i] == es[i].week
  {
    seq(|es|, i requires 0 <= i < |es| => es[i].week)
  }

  /** `df.groupby(week).size()`: one count per distinct week, weeks ascending,
      each the number of rows in that week, all adding up to the rows. */
  function WeeklyCounts(weeks: seq<Instant>): (r: seq<(Instant, nat)>)
    ensures forall i, j :: 0 <= i < j < |r| ==> r[i].0 < r[j].0
    ensures forall w :: w in weeks <==> exists i :: 0 <= i < |r| && r[i].0 == w
    ensures forall i :: 0 <= i < |r| ==> 1 <= r[i].1 == multiset(weeks)[r[i].0]
    ensures Total(r) == |weeks|
  {
    GroupSizesTotal(weeks);
    GroupSizes(weeks)
  }

  /** The same validity mask: keeping `usuario_valido == True`. */
  function OnlyValid(ts: seq<DashTeacher>): (r: seq<DashTeacher>)
    ensures SubseqOf(r, ts)
    ensures forall d: DashTeacher :: d in r <==> d in ts && d.valid
    ensures forall d: DashTeacher :: multiset(r)[d] == if d.valid then multiset(ts)[d] else 0
  {
    Select(ts, (d: DashTeacher) => d.valid)
  }

  /** Registrations per week: `groupby('semana_entrada').size()`. */
  function RegistrationsPerWeek(ts: seq<DashTeacher>): (r: seq<(Instant, nat)>)
    ensures forall i, j :: 0 <= i < j < |r| ==> r[i].0 < r[j].0
    ensures forall d: DashTeacher :: d in ts ==> exists i :: 0 <= i < |r| && r[i].0 == d.row.weekOfEntry
    ensures forall w :: w in EntryWeeks(ts) <==> exists i :: 0 <= i < |r| && r[i].0 == w
    ensures forall i :: 0 <= i < |r| ==> 1 <= r[i].1 == multiset(EntryWeeks(ts))[r[i].0]
    ensures Total(r) == |ts|
  {
    var r := WeeklyCounts(EntryWeeks(ts));
    assert forall d: DashTeacher :: d in ts ==> d.row.weekOfEntry in EntryWeeks(ts) by {
      forall d: DashTeacher | d in ts
        ensures d.row.weekOfEntry in EntryWeeks(ts)
      {
        var i :| 0 <= i < |ts| && ts[i] == d;
        assert EntryWeeks(ts)[i] == d.row.weekOfEntry;
      }
    }
    r
  }

  /** Interactions per week: `groupby('semana_inicio').size()`. */
  function InteractionsPerWeek(es: seq<DashEntry>): (r: seq<(Instant, nat)>)
    ensures forall i, j :: 0 <= i < j < |r| ==> r[i].0 < r[j].0
    ensures forall x: DashEntry :: x in es ==> exists i :: 0 <= i < |r| && r[i].0 == x.week
    ensures forall w :: w in StartWeeks(es) <==> exists i :: 0 <= i < |r| && r[i].0 == w
    ensures forall i :: 0 <= i < |r| ==> 1 <= r[i].1 == multiset(StartWeeks(es))[r[i].0]
    ensures Total(r) == |es|
  {
    var r := WeeklyCounts(StartWeeks(es));
    assert forall x: DashEntry :: x in es ==> x.week in StartWeeks(es) by {
      forall x: DashEntry | x in es
        ensures x.week in StartWeeks(es)
      {
        var i :| 0 <= i < |es| && es[i] == x;
        assert StartWeeks(es)[i] == x.week;
      }
    }
    r
  }
}
