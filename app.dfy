/** The main dashboard: entries from 2022-01-03 on with Monday-midnight
    week buckets, the registration and interaction filters, the teacher
    count and the four-way choice of the registrations chart. */
module App {
  import opened Results
  import opened Tables
  import opened Calendar
  import opened DataTransformation
  import opened Dashboard
  import opened Thousands

  /** "2022-01-03" as an instant: a Monday, at midnight. */
  const FirstDay: Instant := 1641168000

  lemma FirstDayIsMonday()
    ensures FirstDay % Day == 0 && DayOfWeek(FirstDay) == 0
  {
  }

  function EntryRows(es: seq<DashEntry>): (r: seq<Entry>)
    ensures |r| == |es| && forall i :: 0 <= i < |es| ==> r[i] == es[i].row
  {
    seq(|es|, i requires 0 <= i < |es| => es[i].row)
  }

  function WithWeekStart(es: seq<Entry>): (r: seq<DashEntry>)
    ensures |r| == |es|
    ensures forall i :: 0 <= i < |es| ==> r[i] == DashEntry(es[i], WeekStartDate(es[i].event.start))
  {
    seq(|es|, i requires 0 <= i < |es| => DashEntry(es[i], WeekStartDate(es[i].event.start)))
  }

  /** Lines 36 to 38: entries before 2022-01-03 are dropped, and each kept
      entry gets the Monday at midnight of its week as `semana_inicio`. */
  function LoadEntries(table: seq<Entry>): (r: seq<DashEntry>)
    ensures SubseqOf(EntryRows(r), table)
    ensures forall x: DashEntry :: x in r <==>
      x.row in table && x.row.event.start >= FirstDay && x.week == WeekStartDate(x.row.event.start)
    ensures forall e: Entry :: multiset(EntryRows(r))[e] == if e.event.start >= FirstDay then multiset(table)[e] else 0
  {
    var kept := Select(table, (e: Entry) => e.event.start >= FirstDay);
    var r := WithWeekStart(kept);
    assert EntryRows(r) == kept;
    assert forall x: DashEntry :: x in r ==> x.row in kept && x.week == WeekStartDate(x.row.event.start) by {
      forall x: DashEntry | x in r
        ensures x.row in kept && x.week == WeekStartDate(x.row.event.start)
      {
        var i :| 0 <= i < |r| && r[i] == x;
        assert kept[i] in kept;
      }
    }
    assert forall x: DashEntry :: x.row in kept && x.week == WeekStartDate(x.row.event.start) ==> x in r by {
      forall x: DashEntry | x.row in kept && x.week == WeekStartDate(x.row.event.start)
        ensures x in r
      {
        var i :| 0 <= i < |kept| && kept[i] == x.row;
        assert r[i] == x;
      }
    }
    r
  }

  /** Every loaded entry's week bucket is a Monday at midnight, at most six
      days and a bit before its start, and never before 2022-01-03: the
      first bucket of the interactions chart is a whole week. */
  lemma LoadedWeeks(table: seq<Entry>, x: DashEntry)
    requires x in LoadEntries(table)
    ensures DayOfWeek(x.week) == 0 && x.week % Day == 0
    ensures x.week <= x.row.event.start < x.week + Week
    ensures FirstDay <= x.week
  {
    WeekStartDateIsMonday(x.row.event.start);
    WeekStartDateLatest(x.row.event.start, FirstDay);
  }

  /** The one mask `teachers_filtrado` amounts to. */
  predicate Shown(d: DashTeacher, switchValid: bool, start: Instant, end: Instant)
  {
    (switchValid ==> d.valid) && start <= d.row.weekOfEntry <= end
  }

  /** `teachers_filtrado`: with the switch on only valid teachers, then the
      registration week within `[start, end]`, both ends included; the same
      rows, in the same order and with the same repeats, as the single
      combined mask. */
  function TeachersFiltrado(ts: seq<DashTeacher>, switchValid: bool, start: Instant, end: Instant): (r: seq<DashTeacher>)
    ensures r == Select(ts, (d: DashTeacher) => Shown(d, switchValid, start, end))
    ensures SubseqOf(r, ts)
    ensures forall d: DashTeacher :: d in r <==> d in ts && Shown(d, switchValid, start, end)
    ensures forall d: DashTeacher :: multiset(r)[d] == if Shown(d, switchValid, start, end) then multiset(ts)[d] else 0
  {
    var df := if switchValid then OnlyValid(ts) else ts;
    var inRange := (d: DashTeacher) => start <= d.row.weekOfEntry && d.row.weekOfEntry <= end;
    var shown := (d: DashTeacher) => Shown(d, switchValid, start, end);
    if switchValid then
      SelectSelect(ts, (d: DashTeacher) => d.valid, inRange, shown);
      Select(df, inRange)
    else
      SelectExt(ts, inRange, shown);
      Select(df, inRange)
  }

  /** An inverted date range shows no teacher. */
  lemma InvertedRangeEmpty(ts: seq<DashTeacher>, switchValid: bool, start: Instant, end: Instant)
    requires end < start
    ensures TeachersFiltrado(ts, switchValid, start, end) == []
  {
    HeadIn(TeachersFiltrado(ts, switchValid, start, end));
  }

  /** At its defaults (switch off, the date slider spanning the first to the
      last registration week) the filter keeps every teacher. */
  lemma DefaultsKeepAllTeachers(ts: seq<DashTeacher>)
    requires Range(EntryWeeks(ts)).Some?
    ensures TeachersFiltrado(ts, false, Range(EntryWeeks(ts)).value.0, Range(EntryWeeks(ts)).value.1) == ts
  {
    var (lo, hi) := Range(EntryWeeks(ts)).value;
    forall d | d in ts
      ensures lo <= d.row.weekOfEntry <= hi
    {
      var i :| 0 <= i < |ts| && ts[i] == d;
      assert EntryWeeks(ts)[i] in EntryWeeks(ts);
    }
    SelectAll(ts, (d: DashTeacher) => lo <= d.row.weekOfEntry <= hi);
  }

  /** The users of the valid teacher rows, one entry per valid row. The
      source applies `.unique()` to this column; duplicates are kept here,
      which changes nothing for the `isin` test that is its only use
      (app.py:163). */
  function ValidUsers(ts: seq<DashTeacher>): (us: seq<UserId>)
    ensures forall u :: u in us <==> exists d: DashTeacher :: d in ts && d.valid && d.row.dim.user == u
  {
    var valid := OnlyValid(ts);
    var us := seq(|valid|, i requires 0 <= i < |valid| => valid[i].row.dim.user);
    assert forall d: DashTeacher :: d in valid ==> d.row.dim.user in us by {
      forall d: DashTeacher | d in valid
        ensures d.row.dim.user in us
      {
        var i :| 0 <= i < |valid| && valid[i] == d;
        assert us[i] == d.row.dim.user;
      }
    }
    us
  }

  /** The one mask `entries_filtrado` amounts to. */
  predicate EntryShown(x: DashEntry, ts: seq<DashTeacher>, switchValid: bool, start: Instant, end: Instant)
  {
    && (switchValid ==> exists d: DashTeacher :: d in ts && d.valid && d.row.dim.user == x.row.event.user)
    && start <= x.week <= end
  }

  /** `entries_filtrado`: with the switch on only entries of a user that has
      a valid teacher row, then the entry week within `[start, end]`, both
      ends included; the same rows, in the same order and with the same
      repeats, as the single combined mask. */
  function EntriesFiltrado(es: seq<DashEntry>, ts: seq<DashTeacher>, switchValid: bool, start: Instant, end: Instant): (r: seq<DashEntry>)
    ensures r == Select(es, (x: DashEntry) => EntryShown(x, ts, switchValid, start, end))
    ensures SubseqOf(r, es)
    ensures forall x: DashEntry :: x in r <==> x in es && EntryShown(x, ts, switchValid, start, end)
    ensures forall x: DashEntry :: multiset(r)[x] == if EntryShown(x, ts, switchValid, start, end) then multiset(es)[x] else 0
  {
    var users := ValidUsers(ts);
    var df := if switchValid then Select(es, (x: DashEntry) => x.row.event.user in users) else es;
    var inRange := (x: DashEntry) => start <= x.week && x.week <= end;
    var shown := (x: DashEntry) => EntryShown(x, ts, switchValid, start, end);
    if switchValid then
      SelectSelect(es, (x: DashEntry) => x.row.event.user in users, inRange, shown);
      Select(df, inRange)
    else
      SelectExt(es, inRange, shown);
      Select(df, inRange)
  }

  /** `qtd_professores`: the number of filtered teachers, formatted with `,d`
      and its commas turned into dots; read back it is the count. */
  function QtdProfessores(ts: seq<DashTeacher>): (s: string)
    ensures s == Grouped(|ts|, '.')
    ensures ReadNumber(s, '.') == |ts|
  {
    DotGrouped(|ts|)
  }

  /** The charts `plot_cadastros` can draw. */
  datatype Plot = Registrations | MeanRfmScore | MeanFrequency | MeanDuration

  /** The option of the select input that asks for each chart. */
  function Label(p: Plot): string
  {
    match p
    case Registrations => "Cadastro de Professores"
    case MeanRfmScore => "RFM Score Médio"
    case MeanFrequency => "Frequência Média de Acessos"
    case MeanDuration => "Tempo Médio Gasto"
  }

  /** `plot_cadastros`: the chart a label asks for; any other text draws
      nothing. Each chart has exactly one label. */
  function PlotCadastros(choice: string): (r: Option<Plot>)
    ensures r.Some? ==> Label(r.value) == choice
    ensures forall p :: Label(p) == choice ==> r == Some(p)
  {
    if choice == Label(Registrations) then Some(Registrations)
    else if choice == Label(MeanRfmScore) then Some(MeanRfmScore)
    else if choice == Label(MeanFrequency) then Some(MeanFrequency)
    else if choice == Label(MeanDuration) then Some(MeanDuration)
    else None
  }
}
