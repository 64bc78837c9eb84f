/** The explanatory dashboard: entries bucketed by going back to Monday at
    the same time of day, the interaction date filter, the count of the last
    thirty days and the weekly interaction counts. */
module Explanatory {
  import opened Tables
  import opened Calendar
  import opened DataTransformation
  import opened Dashboard
  import opened Thousands

  /** Lines 36 to 38: every entry is kept, and `semana_inicio` is its start
      moved back by its weekday index in days. */
  function LoadEntries(table: seq<Entry>): (r: seq<DashEntry>)
    ensures |r| == |table|
    ensures forall i :: 0 <= i < |table| ==> r[i].row == table[i] && r[i].week == BackToMonday(table[i].event.start)
  {
    seq(|table|, i requires 0 <= i < |table| => DashEntry(table[i], BackToMonday(table[i].event.start)))
  }

  /** Each bucket is the Monday of the entry's week at the entry's time of
      day, not midnight as in app.py: its date is app.py's bucket. */
  lemma LoadedWeeks(table: seq<Entry>, i: nat)
    requires i < |table|
    ensures var x := LoadEntries(table)[i];
      && DayOfWeek(x.week) == 0
      && x.week <= x.row.event.start < x.week + Week
      && x.week % Day == x.row.event.start % Day
      && Date(x.week) == WeekStartDate(x.row.event.start)
  {
    BackToMondayIsMonday(table[i].event.start);
    DateOfBackToMonday(table[i].event.start);
  }

  /** Because the bucket keeps the time of day, two entries of one week that
      started at different times fall in different `semana_inicio` groups:
      the weekly interaction chart counts each of them on its own. Here a
      Monday 10:00 and a Tuesday 11:00 of the week of 2022-01-03. */
  lemma SameWeekApart(table: seq<Entry>)
    requires |table| == 2
    requires table[0].event.start == 1641204000 && table[1].event.start == 1641294000
    ensures WeekStartDate(table[0].event.start) == WeekStartDate(table[1].event.start)
    ensures InteractionsPerWeek(LoadEntries(table)) == [(1641204000, 1), (1641207600, 1)]
  {
    var es := LoadEntries(table);
    var w := StartWeeks(es);
    assert w == [1641204000, 1641207600];
    assert multiset(w)[1641204000] == 1 && multiset(w)[1641207600] == 1;
    TwoGroups(w, InteractionsPerWeek(es), 1641204000, 1641207600);
  }

  /** Week counts over a column holding two distinct weeks once each are
      those two weeks, ascending, with a count of one each. */
  lemma TwoGroups(w: seq<Instant>, r: seq<(Instant, nat)>, a: Instant, b: Instant)
    requires a < b && w == [a, b]
    requires forall i, j :: 0 <= i < j < |r| ==> r[i].0 < r[j].0
    requires forall x :: x in w <==> exists i :: 0 <= i < |r| && r[i].0 == x
    requires forall i :: 0 <= i < |r| ==> r[i].1 == multiset(w)[r[i].0]
    requires multiset(w)[a] == 1 && multiset(w)[b] == 1
    ensures r == [(a, 1), (b, 1)]
  {
    assert a in w && b in w;
    var i :| 0 <= i < |r| && r[i].0 == a;
    var j :| 0 <= j < |r| && r[j].0 == b;
    assert forall k :: 0 <= k < |r| ==> r[k].0 in w;
    assert forall k :: 0 <= k < |r| ==> r[k].0 == a || r[k].0 == b;
    assert r[0].0 >= a;
    assert i == 0;
    assert forall k :: 1 <= k < |r| ==> r[k].0 == b;
    assert j != 0 && r[1].0 == b;
    assert j == 1;
    assert r[|r| - 1].0 == b;
    assert |r| == 2;
  }

  /** `filtered_entries`: the entries whose start lies in `[start, end]`,
      both ends included, in table order. */
  function FilteredEntries(es: seq<DashEntry>, start: Instant, end: Instant): (r: seq<DashEntry>)
    ensures SubseqOf(r, es)
    ensures forall x: DashEntry :: x in r <==> x in es && start <= x.row.event.start <= end
    ensures forall x: DashEntry :: multiset(r)[x] == if start <= x.row.event.start <= end then multiset(es)[x] else 0
  {
    Select(es, (x: DashEntry) => start <= x.row.event.start <= end)
  }

  /** The `data_inicio` column. */
  function Starts(es: seq<DashEntry>): (c: seq<Instant>)
    ensures |c| == |es| && forall i :: 0 <= i < |es| ==> c[i] == es[i].row.event.start
  {
    seq(|es|, i requires 0 <= i < |es| => es[i].row.event.start)
  }

  /** The entries that start at most thirty days before the latest start;
      none when there are no entries (`max()` is then `NaT` and every
      comparison fails). The latest entry itself is always kept. */
  function LastThirtyDays(es: seq<DashEntry>): (r: seq<DashEntry>)
    ensures SubseqOf(r, es)
    ensures es == [] ==> r == []
    ensures es != [] ==> forall x: DashEntry :: x in r <==> x in es && x.row.event.start >= Max(Starts(es)) - 30 * Day
    ensures es != [] ==> forall x: DashEntry ::
      multiset(r)[x] == if x.row.event.start >= Max(Starts(es)) - 30 * Day then multiset(es)[x] else 0
    ensures es != [] ==> |r| >= 1
  {
    if es == [] then []
    else
      var latest := Max(Starts(es));
      var r := Select(es, (x: DashEntry) => x.row.event.start >= latest - 30 * Day);
      assert exists i :: 0 <= i < |es| && es[i] in r by {
        var i :| 0 <= i < |es| && Starts(es)[i] == latest;
        assert es[i] in r;
      }
      r
  }

  /** `interacoes_d30`: how many filtered entries fall in the last thirty
      days, grouped with dots; read back it is that count, which never
      exceeds the filtered count and is at least one when anything passed
      the filter. */
  function InteracoesD30(es: seq<DashEntry>): (s: string)
    ensures s == Grouped(|LastThirtyDays(es)|, '.')
    ensures ReadNumber(s, '.') == |LastThirtyDays(es)| <= |es|
    ensures es != [] ==> ReadNumber(s, '.') >= 1
    ensures es == [] ==> s == "0"
  {
    DotGrouped(|LastThirtyDays(es)|)
  }
}
