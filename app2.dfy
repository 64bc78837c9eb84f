/** The second dashboard: no Frequency cap at load, a registration filter
    that also bounds the RFM score, and the teacher count with comma
    grouping. */
module App2 {
  import opened Results
  import opened Tables
  import opened Calendar
  import opened DataTransformation
  import opened Dashboard
  import opened Thousands

  /** The one mask `teachers_filtrado` amounts to. */
  predicate Shown(d: DashTeacher, switchValid: bool, startDate: Instant, endDate: Instant, startRfm: int, endRfm: int)
  {
    && (switchValid ==> d.valid)
    && startDate <= d.row.weekOfEntry <= endDate
    && startRfm <= d.row.rfm.score <= endRfm
  }

  /** `teachers_filtrado`: with the switch on only valid teachers, then the
      registration week within `[startDate, endDate]` and `RFM_Score` within
      `[startRfm, endRfm]`, all bounds included; the same rows, in the same
      order, as the single combined mask. */
  function TeachersFiltrado(ts: seq<DashTeacher>, switchValid: bool, startDate: Instant, endDate: Instant, startRfm: int, endRfm: int): (r: seq<DashTeacher>)
    ensures r == Select(ts, (d: DashTeacher) => Shown(d, switchValid, startDate, endDate, startRfm, endRfm))
    ensures SubseqOf(r, ts)
    ensures forall d: DashTeacher :: d in r <==> d in ts && Shown(d, switchValid, startDate, endDate, startRfm, endRfm)
  {
    var df := if switchValid then OnlyValid(ts) else ts;
    var inRange := (d: DashTeacher) =>
      startDate <= d.row.weekOfEntry && d.row.weekOfEntry <= endDate && startRfm <= d.row.rfm.score && d.row.rfm.score <= endRfm;
    var shown := (d: DashTeacher) => Shown(d, switchValid, startDate, endDate, startRfm, endRfm);
    if switchValid then
      SelectSelect(ts, (d: DashTeacher) => d.valid, inRange, shown);
      Select(df, inRange)
    else
      SelectExt(ts, inRange, shown);
      Select(df, inRange)
  }

  /** The RFM slider starts at `rfm_score[0]` and `rfm_score[-1]` (`Ends`);
      built from the sorted distinct scores, those defaults are the smallest
      and the largest `RFM_Score` of the table. */
  lemma RfmDefaultsAreBounds(ts: seq<DashTeacher>)
    requires ts != []
    ensures Ends(SortedDistinct(Column(ts, Rfm))).Some?
    ensures var (lo, hi) := Ends(SortedDistinct(Column(ts, Rfm))).value;
      && lo in Column(ts, Rfm) && hi in Column(ts, Rfm)
      && forall d :: d in ts ==> lo <= d.row.rfm.score <= hi
  {
    var col := Column(ts, Rfm);
    assert col[0] in col;
    forall d | d in ts
      ensures d.row.rfm.score in col
    {
      var i :| 0 <= i < |ts| && ts[i] == d;
      assert col[i] == d.row.rfm.score;
    }
  }

  /** With every control at its default (switch off, both sliders spanning
      the whole table) every teacher is shown. */
  lemma DefaultsKeepAll(ts: seq<DashTeacher>)
    requires ts != []
    ensures Range(EntryWeeks(ts)).Some? && Ends(SortedDistinct(Column(ts, Rfm))).Some?
    ensures var (startDate, endDate) := Range(EntryWeeks(ts)).value;
      var (startRfm, endRfm) := Ends(SortedDistinct(Column(ts, Rfm))).value;
      TeachersFiltrado(ts, false, startDate, endDate, startRfm, endRfm) == ts
  {
    RfmDefaultsAreBounds(ts);
    var (startDate, endDate) := Range(EntryWeeks(ts)).value;
    var (startRfm, endRfm) := Ends(SortedDistinct(Column(ts, Rfm))).value;
    forall d | d in ts
      ensures Shown(d, false, startDate, endDate, startRfm, endRfm)
    {
      var i :| 0 <= i < |ts| && ts[i] == d;
      assert EntryWeeks(ts)[i] in EntryWeeks(ts);
    }
    SelectAll(ts, (d: DashTeacher) => Shown(d, false, startDate, endDate, startRfm, endRfm));
  }

  /** An inverted date range or an inverted score range shows no teacher. */
  lemma InvertedRangesEmpty(ts: seq<DashTeacher>, switchValid: bool, startDate: Instant, endDate: Instant, startRfm: int, endRfm: int)
    requires endDate < startDate || endRfm < startRfm
    ensures TeachersFiltrado(ts, switchValid, startDate, endDate, startRfm, endRfm) == []
  {
    HeadIn(TeachersFiltrado(ts, switchValid, startDate, endDate, startRfm, endRfm));
  }

  /** `qtd_professores`: the number of filtered teachers formatted with `,d`;
      read back it is the count. */
  function QtdProfessores(ts: seq<DashTeacher>): (s: string)
    ensures s == Grouped(|ts|, ',')
    ensures forall i :: 0 <= i < |s| ==> s[i] == ',' || IsDigit(s[i])
    ensures forall i :: 0 <= i < |s| ==> (s[i] == ',' <==> (|s| - i) % 4 == 0)
    ensures |s| % 4 != 0 && (s[0] == '0' ==> s == "0")
    ensures ReadNumber(s, ',') == |ts|
  {
    GroupedRoundTrip(|ts|, ',');
    Grouped(|ts|, ',')
  }
}
