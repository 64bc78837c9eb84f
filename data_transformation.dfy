/** The RFM batch: per-event durations, one Recency / Frequency / Duration
    record per teacher, quintile scores, the segment code and score sum, and
    the two inner merges that produce the `teachers` and `entries` tables. */
module DataTransformation {
  import opened Results
  import opened Tables
  import opened Calendar
  import opened Quantiles

  type UserId = int

  /** A row of the interaction table: who, and when the session started and
      ended. */
  datatype Event = Event(user: UserId, start: Instant, end: Instant)

  /** A row of the teacher dimension. State and acquisition channel are
      carried through untouched for the dashboards. */
  datatype DimTeacher = DimTeacher(
    user: UserId,
    entryDate: Instant,
    selectedStages: Option<string>,
    state: string,
    utmOrigin: string)

  /** `duracao_minutos`: the session length in minutes, negative when the
      end precedes the start (nothing rejects that). */
  function DurationMinutes(e: Event): (m: real)
    ensures m * 60.0 == (e.end - e.start) as real
    ensures m < 0.0 <==> e.end < e.start
  {
    (e.end - e.start) as real / 60.0
  }

  /** The `unique_id` column. */
  function Users(events: seq<Event>): (us: seq<UserId>)
    ensures |us| == |events|
    ensures forall i :: 0 <= i < |events| ==> us[i] == events[i].user
  {
    seq(|events|, i requires 0 <= i < |events| => events[i].user)
  }

  /** `max()` of the start column. */
  function MaxStart(events: seq<Event>): (m: Instant)
    requires |events| > 0
    ensures exists i :: 0 <= i < |events| && events[i].start == m
    ensures forall i :: 0 <= i < |events| ==> events[i].start <= m
  {
    if |events| == 1 then events[0].start
    else
      var rest := MaxStart(events[1..]);
      assert forall i :: 1 <= i < |events| ==> events[i] == events[1..][i - 1];
      if events[0].start >= rest then events[0].start else rest
  }

  /** `ref_date`: one day after the latest start in the whole table. */
  function RefDate(events: seq<Event>): (r: Instant)
    requires |events| > 0
    ensures forall i :: 0 <= i < |events| ==> events[i].start < r
    ensures exists i :: 0 <= i < |events| && events[i].start + Day == r
  {
    MaxStart(events) + Day
  }

  /** The events of one user, in table order. */
  function EventsOf(events: seq<Event>, u: UserId): seq<Event>
  {
    Select(events, (e: Event) => e.user == u)
  }

  /** The sum of `duracao_minutos` over some events. */
  function TotalMinutes(events: seq<Event>): real
  {
    if events == [] then 0.0 else DurationMinutes(events[0]) + TotalMinutes(events[1..])
  }

  /** The three raw metrics of one user. */
  datatype Metrics = Metrics(user: UserId, recency: int, frequency: nat, duration: real)

  lemma UserHasEvents(events: seq<Event>, u: UserId)
    requires u in Users(events)
    ensures |EventsOf(events, u)| > 0
  {
    var i :| 0 <= i < |events| && Users(events)[i] == u;
    assert events[i] in EventsOf(events, u);
  }

  lemma MaxStartMember(s: seq<Event>, x: Event)
    requires x in s
    ensures x.start <= MaxStart(s)
  {
    var i :| 0 <= i < |s| && s[i] == x;
  }

  /** The latest start of some of the rows is no later than that of all. */
  lemma MaxStartWithin(s: seq<Event>, t: seq<Event>)
    requires |s| > 0 && forall x :: x in s ==> x in t
    ensures |t| > 0 && MaxStart(s) <= MaxStart(t)
  {
    var i :| 0 <= i < |s| && s[i].start == MaxStart(s);
    assert s[i] in s;
    MaxStartMember(t, s[i]);
  }

  /** One group of `groupby('unique_id').agg(...)`: Recency is the whole days
      from `ref_date` back to the user's latest start, Frequency the number
      of events and Duration the sum of their minutes. */
  function UserMetrics(events: seq<Event>, u: UserId): (m: Metrics)
    requires u in Users(events)
    ensures m.user == u
    ensures m.frequency >= 1 && m.recency >= 1
  {
    var mine := EventsOf(events, u);
    UserHasEvents(events, u);
    MaxStartWithin(mine, events);
    Metrics(u, (RefDate(events) - MaxStart(mine)) / Day, |mine|, TotalMinutes(mine))
  }

  function AggregateOver(events: seq<Event>, ids: seq<UserId>): (r: seq<Metrics>)
    requires forall u :: u in ids ==> u in Users(events)
    ensures |r| == |ids|
    ensures forall i :: 0 <= i < |ids| ==> r[i] == UserMetrics(events, ids[i])
  {
    if ids == [] then [] else [UserMetrics(events, ids[0])] + AggregateOver(events, ids[1..])
  }

  /** `df.groupby('unique_id').agg(...)`: one record per distinct user, in
      ascending user order; an empty table gives no records. */
  function Aggregate(events: seq<Event>): (r: seq<Metrics>)
    ensures forall i, j :: 0 <= i < j < |r| ==> r[i].user < r[j].user
    ensures forall u :: u in Users(events) <==> exists i :: 0 <= i < |r| && r[i].user == u
    ensures forall i :: 0 <= i < |r| ==> r[i].frequency >= 1 && r[i].recency >= 1
  {
    var ids := SortedDistinct(Users(events));
    var r := AggregateOver(events, ids);
    assert forall u :: u in ids ==> exists i :: 0 <= i < |r| && r[i].user == u;
    r
  }

  // ---------------------------------------------------------------------
  // Properties of the aggregation

  /** Frequency counts the rows of the user in the event table. */
  lemma {:induction false} FrequencyIsRowCount(events: seq<Event>, u: UserId)
    ensures |EventsOf(events, u)| == multiset(Users(events))[u]
  {
    if events != [] {
      FrequencyIsRowCount(events[1..], u);
      assert Users(events) == [events[0].user] + Users(events[1..]);
    }
  }

  function TotalFrequency(ms: seq<Metrics>): nat
  {
    if ms == [] then 0 else ms[0].frequency + TotalFrequency(ms[1..])
  }

  lemma {:induction false} TotalFrequencyOver(events: seq<Event>, ids: seq<UserId>)
    requires forall u :: u in ids ==> u in Users(events)
    ensures TotalFrequency(AggregateOver(events, ids)) == Total(Tally(ids, Users(events)))
  {
    if ids != [] {
      TotalFrequencyOver(events, ids[1..]);
      FrequencyIsRowCount(events, ids[0]);
    }
  }

  /** The Frequencies add up to the number of event rows. */
  lemma FrequenciesSumToRows(events: seq<Event>)
    ensures TotalFrequency(Aggregate(events)) == |events|
  {
    var ids := SortedDistinct(Users(events));
    TotalFrequencyOver(events, ids);
    TallyTotal(ids, Users(events));
  }

  /** The users of the aggregate are exactly `SortedDistinct` of the user
      column, one record each. */
  lemma AggregateUsers(events: seq<Event>)
    ensures |Aggregate(events)| == |SortedDistinct(Users(events))|
    ensures forall i :: 0 <= i < |Aggregate(events)| ==> Aggregate(events)[i] == UserMetrics(events, SortedDistinct(Users(events))[i])
  {
  }

  /** Recency is 1 exactly when the user's latest start is less than a day
      before the latest start of the whole table; in particular whoever owns
      the latest event has Recency 1. */
  lemma RecencyOneIffLastDay(events: seq<Event>, u: UserId)
    requires u in Users(events)
    ensures |EventsOf(events, u)| > 0
    ensures UserMetrics(events, u).recency == 1 <==> MaxStart(events) - Day < MaxStart(EventsOf(events, u))
  {
    UserHasEvents(events, u);
    MaxStartWithin(EventsOf(events, u), events);
  }

  lemma LatestEventOwnerRecencyOne(events: seq<Event>, k: nat)
    requires k < |events| && events[k].start == MaxStart(events)
    ensures events[k].user in Users(events)
    ensures UserMetrics(events, events[k].user).recency == 1
  {
    var u := events[k].user;
    assert Users(events)[k] == u;
    var mine := EventsOf(events, u);
    assert events[k] in mine;
    MaxStartMember(mine, events[k]);
    MaxStartWithin(mine, events);
  }

  function TotalDuration(ms: seq<Metrics>): real
  {
    if ms == [] then 0.0 else ms[0].duration + TotalDuration(ms[1..])
  }

  /** The minutes of the users `ids`, summed user by user. */
  function MinutesByUser(events: seq<Event>, ids: seq<UserId>): real
  {
    if ids == [] then 0.0 else TotalMinutes(EventsOf(events, ids[0])) + MinutesByUser(events, ids[1..])
  }

  lemma {:induction false} TotalMinutesAppend(a: seq<Event>, b: seq<Event>)
    ensures TotalMinutes(a + b) == TotalMinutes(a) + TotalMinutes(b)
  {
    if a != [] {
      TotalMinutesAppend(a[1..], b);
      assert (a + b)[1..] == a[1..] + b;
    } else {
      assert a + b == b;
    }
  }

  lemma {:induction false} EventsOfSnoc(events: seq<Event>, x: Event, u: UserId)
    ensures EventsOf(events + [x], u) == EventsOf(events, u) + (if x.user == u then [x] else [])
  {
    if events != [] {
      EventsOfSnoc(events[1..], x, u);
      assert (events + [x])[1..] == events[1..] + [x];
    } else {
      assert EventsOf([], u) == [];
      assert EventsOf([x], u) == (if x.user == u then [x] else []) + EventsOf([], u);
    }
  }

  lemma {:induction false} MinutesByUserSnoc(events: seq<Event>, x: Event, ids: seq<UserId>)
    requires Distinct(ids)
    ensures MinutesByUser(events + [x], ids)
         == MinutesByUser(events, ids) + (if x.user in ids then DurationMinutes(x) else 0.0)
  {
    if ids != [] {
      assert Distinct(ids[1..]);
      MinutesByUserSnoc(events, x, ids[1..]);
      EventsOfSnoc(events, x, ids[0]);
      TotalMinutesAppend(EventsOf(events, ids[0]), if x.user == ids[0] then [x] else []);
      assert TotalMinutes([x]) == DurationMinutes(x);
      assert TotalMinutes([]) == 0.0;
      if x.user == ids[0] {
        assert x.user !in ids[1..];
      } else {
        assert x.user in ids <==> x.user in ids[1..];
      }
    }
  }

  lemma {:induction false} MinutesByUserCovers(events: seq<Event>, ids: seq<UserId>)
    requires Distinct(ids)
    requires forall u :: u in Users(events) ==> u in ids
    ensures MinutesByUser(events, ids) == TotalMinutes(events)
  {
    if events == [] {
      MinutesByUserEmpty(ids);
    } else {
      var s, x := events[..|events| - 1], events[|events| - 1];
      assert events == s + [x];
      assert forall u :: u in Users(s) ==> u in Users(events) by {
        forall u | u in Users(s)
          ensures u in Users(events)
        {
          var i :| 0 <= i < |s| && Users(s)[i] == u;
          assert Users(events)[i] == u;
        }
      }
      MinutesByUserCovers(s, ids);
      MinutesByUserSnoc(s, x, ids);
      assert Users(events)[|events| - 1] == x.user;
      TotalMinutesAppend(s, [x]);
      assert TotalMinutes([x]) == DurationMinutes(x);
    }
  }

  lemma {:induction false} MinutesByUserEmpty(ids: seq<UserId>)
    ensures MinutesByUser([], ids) == 0.0
  {
    if ids != [] {
      MinutesByUserEmpty(ids[1..]);
    }
  }

  lemma {:induction false} TotalDurationOver(events: seq<Event>, ids: seq<UserId>)
    requires forall u :: u in ids ==> u in Users(events)
    ensures TotalDuration(AggregateOver(events, ids)) == MinutesByUser(events, ids)
  {
    if ids != [] {
      TotalDurationOver(events, ids[1..]);
    }
  }

  /** Grouping loses no minutes: the Durations add up to the minutes of the
      whole event table. */
  lemma DurationsSumToMinutes(events: seq<Event>)
    ensures TotalDuration(Aggregate(events)) == TotalMinutes(events)
  {
    var ids := SortedDistinct(Users(events));
    TotalDurationOver(events, ids);
    MinutesByUserCovers(events, ids);
  }

  // ---------------------------------------------------------------------
  // Scores

  /** `labels=[5,4,3,2,1]`: the most recent users get 5. */
  const RecencyLabels: seq<int> := [5, 4, 3, 2, 1]
  /** `labels=[1,2,3,4,5]`. */
  const ScoreLabels: seq<int> := [1, 2, 3, 4, 5]

  /** The score column whose `qcut` raised. */
  datatype ScoreColumn = RScore | FScore | MScore

  /** A row of the `rfm` table. */
  datatype RfmRecord = RfmRecord(
    user: UserId,
    recency: int,
    frequency: nat,
    duration: real,
    rScore: int,
    fScore: int,
    mScore: int,
    segment: string,
    score: int)

  function RecencyColumn(ms: seq<Metrics>): (c: seq<real>)
    ensures |c| == |ms|
  {
    seq(|ms|, i requires 0 <= i < |ms| => ms[i].recency as real)
  }

  function FrequencyColumn(ms: seq<Metrics>): (c: seq<int>)
    ensures |c| == |ms|
  {
    seq(|ms|, i requires 0 <= i < |ms| => ms[i].frequency as int)
  }

  function DurationColumn(ms: seq<Metrics>): (c: seq<real>)
    ensures |c| == |ms|
  {
    seq(|ms|, i requires 0 <= i < |ms| => ms[i].duration)
  }

  /** `str(d)` of a one-digit score. */
  function Digit(d: int): (c: char)
    requires 0 <= d <= 9
    ensures '0' <= c <= '9' && c as int - '0' as int == d
  {
    ('0' as int + d) as char
  }

  /** `RFM_Segment`: the three scores written side by side, R then F then M;
      each character reads back as its score. */
  function Segment(r: int, f: int, m: int): (s: string)
    requires 1 <= r <= 5 && 1 <= f <= 5 && 1 <= m <= 5
    ensures |s| == 3
    ensures forall k :: 0 <= k < 3 ==> '1' <= s[k] <= '5'
    ensures s[0] as int - '0' as int == r && s[1] as int - '0' as int == f && s[2] as int - '0' as int == m
  {
    [Digit(r), Digit(f), Digit(m)]
  }

  predicate InScoreRange(xs: seq<int>)
  {
    forall i :: 0 <= i < |xs| ==> 1 <= xs[i] <= 5
  }

  /** Every label `qcut` hands out is a score from 1 to 5. */
  lemma LabelsAreScores(values: seq<real>, labels: seq<int>)
    requires labels == RecencyLabels || labels == ScoreLabels
    requires Qcut(values, labels).Ok?
    ensures InScoreRange(Qcut(values, labels).value)
  {
    var r := Qcut(values, labels).value;
    forall i | 0 <= i < |r|
      ensures 1 <= r[i] <= 5
    {
      assert r[i] in labels;
    }
  }

  /** One row of `rfm` from its metrics and its three scores. */
  function Record(m: Metrics, r: int, f: int, d: int): (x: RfmRecord)
    requires 1 <= r <= 5 && 1 <= f <= 5 && 1 <= d <= 5
    ensures x.user == m.user && x.recency == m.recency && x.frequency == m.frequency && x.duration == m.duration
    ensures 3 <= x.score <= 15 && |x.segment| == 3
  {
    RfmRecord(m.user, m.recency, m.frequency, m.duration, r, f, d, Segment(r, f, d), r + f + d)
  }

  function Records(ms: seq<Metrics>, rs: seq<int>, fs: seq<int>, ds: seq<int>): (r: seq<RfmRecord>)
    requires |rs| == |fs| == |ds| == |ms|
    requires InScoreRange(rs) && InScoreRange(fs) && InScoreRange(ds)
    ensures |r| == |ms|
    ensures forall i :: 0 <= i < |ms| ==> r[i] == Record(ms[i], rs[i], fs[i], ds[i])
  {
    seq(|ms|, i requires 0 <= i < |ms| => Record(ms[i], rs[i], fs[i], ds[i]))
  }

  /** Lines 25 to 31: the three `qcut`s, in the order R, F, M (the first one
      that raises stops the script), then the segment and the score sum. */
  function Score(ms: seq<Metrics>): (r: Result<seq<RfmRecord>, ScoreColumn>)
    ensures r.Ok? ==> |r.value| == |ms|
    ensures r.Ok? ==> forall i :: 0 <= i < |ms| ==>
      && r.value[i].user == ms[i].user
      && r.value[i].recency == ms[i].recency
      && r.value[i].frequency == ms[i].frequency
      && r.value[i].duration == ms[i].duration
    ensures r.Ok? ==> forall i :: 0 <= i < |ms| ==>
      && 1 <= r.value[i].rScore <= 5 && 1 <= r.value[i].fScore <= 5 && 1 <= r.value[i].mScore <= 5
      && r.value[i].score == r.value[i].rScore + r.value[i].fScore + r.value[i].mScore
      && 3 <= r.value[i].score <= 15
      && r.value[i].segment == Segment(r.value[i].rScore, r.value[i].fScore, r.value[i].mScore)
  {
    match Qcut(RecencyColumn(ms), RecencyLabels)
    case Err(_) => Err(RScore)
    case Ok(rs) =>
      match Qcut(RanksFirst(FrequencyColumn(ms)), ScoreLabels)
      case Err(_) => Err(FScore)
      case Ok(fs) =>
        match Qcut(DurationColumn(ms), ScoreLabels)
        case Err(_) => Err(MScore)
        case Ok(ds) =>
          LabelsAreScores(RecencyColumn(ms), RecencyLabels);
          LabelsAreScores(RanksFirst(FrequencyColumn(ms)), ScoreLabels);
          LabelsAreScores(DurationColumn(ms), ScoreLabels);
          Ok(Records(ms, rs, fs, ds))
  }

  /** When scoring succeeds, the three `qcut`s succeeded and each row is
      built from their labels. */
  lemma ScoreIsRecords(ms: seq<Metrics>)
    requires Score(ms).Ok?
    ensures Qcut(RecencyColumn(ms), RecencyLabels).Ok?
    ensures Qcut(RanksFirst(FrequencyColumn(ms)), ScoreLabels).Ok?
    ensures Qcut(DurationColumn(ms), ScoreLabels).Ok?
    ensures InScoreRange(Qcut(RecencyColumn(ms), RecencyLabels).value)
    ensures InScoreRange(Qcut(RanksFirst(FrequencyColumn(ms)), ScoreLabels).value)
    ensures InScoreRange(Qcut(DurationColumn(ms), ScoreLabels).value)
    ensures Score(ms).value == Records(ms, Qcut(RecencyColumn(ms), RecencyLabels).value,
      Qcut(RanksFirst(FrequencyColumn(ms)), ScoreLabels).value, Qcut(DurationColumn(ms), ScoreLabels).value)
  {
    LabelsAreScores(RecencyColumn(ms), RecencyLabels);
    LabelsAreScores(RanksFirst(FrequencyColumn(ms)), ScoreLabels);
    LabelsAreScores(DurationColumn(ms), ScoreLabels);
  }

  lemma LabelOfBin(b: int)
    requires 1 <= b <= 5
    ensures RecencyLabels[b - 1] == 6 - b && ScoreLabels[b - 1] == b
  {
  }

  /** The R score is the reversed bin of Recency, the F score the bin of the
      Frequency rank and the M score the bin of Duration. */
  lemma ScoresAreBins(ms: seq<Metrics>, i: nat)
    requires Score(ms).Ok? && i < |ms|
    ensures QcutBins(RecencyColumn(ms)).Ok?
    ensures QcutBins(RanksFirst(FrequencyColumn(ms))).Ok?
    ensures QcutBins(DurationColumn(ms)).Ok?
    ensures Score(ms).value[i].rScore == 6 - QcutBins(RecencyColumn(ms)).value[i]
    ensures Score(ms).value[i].fScore == QcutBins(RanksFirst(FrequencyColumn(ms))).value[i]
    ensures Score(ms).value[i].mScore == QcutBins(DurationColumn(ms)).value[i]
  {
    ScoreIsRecords(ms);
    LabelOfBin(QcutBins(RecencyColumn(ms)).value[i]);
    LabelOfBin(QcutBins(RanksFirst(FrequencyColumn(ms))).value[i]);
    LabelOfBin(QcutBins(DurationColumn(ms)).value[i]);
  }

  /** A more recent user never gets a lower R score; equal Recency gives
      equal R scores. */
  lemma RScoreMonotone(ms: seq<Metrics>, i: nat, j: nat)
    requires Score(ms).Ok? && i < |ms| && j < |ms|
    requires ms[i].recency <= ms[j].recency
    ensures Score(ms).value[i].rScore >= Score(ms).value[j].rScore
  {
    ScoresAreBins(ms, i);
    ScoresAreBins(ms, j);
    QcutBinsMonotone(RecencyColumn(ms), i, j);
  }

  /** A longer total Duration never gets a lower M score; equal Durations
      give equal M scores. */
  lemma MScoreMonotone(ms: seq<Metrics>, i: nat, j: nat)
    requires Score(ms).Ok? && i < |ms| && j < |ms|
    requires ms[i].duration <= ms[j].duration
    ensures Score(ms).value[i].mScore <= Score(ms).value[j].mScore
  {
    ScoresAreBins(ms, i);
    ScoresAreBins(ms, j);
    QcutBinsMonotone(DurationColumn(ms), i, j);
  }

  /** Users with equal Recency get equal R scores, and users with equal
      Duration equal M scores. */
  lemma EqualMetricsEqualScores(ms: seq<Metrics>, i: nat, j: nat)
    requires Score(ms).Ok? && i < |ms| && j < |ms|
    ensures ms[i].recency == ms[j].recency ==> Score(ms).value[i].rScore == Score(ms).value[j].rScore
    ensures ms[i].duration == ms[j].duration ==> Score(ms).value[i].mScore == Score(ms).value[j].mScore
  {
    if ms[i].recency == ms[j].recency {
      RScoreMonotone(ms, i, j);
      RScoreMonotone(ms, j, i);
    }
    if ms[i].duration == ms[j].duration {
      MScoreMonotone(ms, i, j);
      MScoreMonotone(ms, j, i);
    }
  }

  lemma FScoreFollowsRank(ms: seq<Metrics>, i: nat, j: nat)
    requires Score(ms).Ok? && i < |ms| && j < |ms|
    requires RanksBefore(FrequencyColumn(ms), j, i)
    ensures Score(ms).value[j].fScore <= Score(ms).value[i].fScore
  {
    var f := FrequencyColumn(ms);
    ScoresAreBins(ms, i);
    ScoresAreBins(ms, j);
    RankFirstOrder(f, j, i);
    QcutBinsMonotone(RanksFirst(f), j, i);
  }

  /** A higher Frequency never gets a lower F score. */
  lemma FScoreMonotone(ms: seq<Metrics>, i: nat, j: nat)
    requires Score(ms).Ok? && i < |ms| && j < |ms|
    requires ms[i].frequency > ms[j].frequency
    ensures Score(ms).value[i].fScore >= Score(ms).value[j].fScore
  {
    FScoreFollowsRank(ms, i, j);
  }

  /** Equal Frequencies are ranked in row order, that is by ascending user,
      so the earlier user never gets the higher F score. */
  lemma FScoreTiesByRow(ms: seq<Metrics>, i: nat, j: nat)
    requires Score(ms).Ok? && i < j < |ms|
    requires ms[i].frequency == ms[j].frequency
    ensures Score(ms).value[i].fScore <= Score(ms).value[j].fScore
  {
    FScoreFollowsRank(ms, j, i);
  }

  /** No users, or a single one, make the Recency `qcut` raise. */
  lemma ScoreNeedsTwoUsers(ms: seq<Metrics>)
    requires |ms| <= 1
    ensures Score(ms) == Err(RScore)
  {
    if |ms| == 1 {
      QcutConstantFails(RecencyColumn(ms));
    } else {
      assert RecencyColumn(ms) == [];
      QcutEmptyFails();
    }
    assert Qcut(RecencyColumn(ms), RecencyLabels).Err?;
  }

  /** Scoring succeeds for two or more users whose Recency values differ
      pairwise and whose Duration values differ pairwise: only ties in those
      columns make a `qcut` raise. */
  lemma ScoreSucceeds(ms: seq<Metrics>)
    requires |ms| >= 2
    requires forall i, j :: 0 <= i < j < |ms| ==> ms[i].recency != ms[j].recency
    requires forall i, j :: 0 <= i < j < |ms| ==> ms[i].duration != ms[j].duration
    ensures Score(ms).Ok?
  {
    var rc, dc := RecencyColumn(ms), DurationColumn(ms);
    assert Distinct(rc) by {
      forall i, j | 0 <= i < j < |rc|
        ensures rc[i] != rc[j]
      {
        assert rc[i] == ms[i].recency as real && rc[j] == ms[j].recency as real;
      }
    }
    assert Distinct(dc) by {
      forall i, j | 0 <= i < j < |dc|
        ensures dc[i] != dc[j]
      {
        assert dc[i] == ms[i].duration && dc[j] == ms[j].duration;
      }
    }
    QcutDistinctSucceeds(rc);
    QcutDistinctSucceeds(dc);
    RanksBinIffTwoRows(FrequencyColumn(ms));
    assert Qcut(rc, RecencyLabels).Ok?;
    assert Qcut(RanksFirst(FrequencyColumn(ms)), ScoreLabels).Ok?;
    assert Qcut(dc, ScoreLabels).Ok?;
  }

  /** From two users on, the Frequency `qcut` never raises: any error comes
      from Recency or Duration. */
  lemma FScoreNeverRaises(ms: seq<Metrics>)
    requires |ms| >= 2
    ensures Score(ms) != Err(FScore)
  {
    RanksBinIffTwoRows(FrequencyColumn(ms));
  }

  // ---------------------------------------------------------------------
  // Merges

  /** A row of the `teachers` table. */
  datatype Teacher = Teacher(dim: DimTeacher, rfm: RfmRecord, weekOfEntry: Instant)

  /** A row of the `entries` table. */
  datatype Entry = Entry(event: Event, minutes: real, teacher: Teacher)

  lemma TeacherJoinNoFanOut(dims: seq<DimTeacher>, rfm: seq<RfmRecord>)
    ensures (forall i, j :: 0 <= i < j < |rfm| ==> rfm[i].user != rfm[j].user) ==>
      |InnerJoin(dims, rfm, (d: DimTeacher) => d.user, (x: RfmRecord) => x.user)| <= |dims|
  {
    if forall i, j :: 0 <= i < j < |rfm| ==> rfm[i].user != rfm[j].user {
      InnerJoinNoFanOut(dims, rfm, (d: DimTeacher) => d.user, (x: RfmRecord) => x.user);
    }
  }

  /** With one `rfm` row per user, the teacher merge keeps the dimension
      rows that have one, in order. */
  lemma TeacherJoinInOrder(dims: seq<DimTeacher>, rfm: seq<RfmRecord>)
    ensures (forall i, j :: 0 <= i < j < |rfm| ==> rfm[i].user != rfm[j].user) ==>
      Lefts(InnerJoin(dims, rfm, (d: DimTeacher) => d.user, (x: RfmRecord) => x.user))
        == Select(dims, (d: DimTeacher) => exists x :: x in rfm && x.user == d.user)
  {
    if forall i, j :: 0 <= i < j < |rfm| ==> rfm[i].user != rfm[j].user {
      InnerJoinInOrder(dims, rfm, (d: DimTeacher) => d.user, (x: RfmRecord) => x.user,
        (d: DimTeacher) => exists x :: x in rfm && x.user == d.user);
    }
  }

  /** With one teacher row per user, the entry merge keeps the events of
      teachers, in order. */
  lemma EntryJoinInOrder(events: seq<Event>, teachers: seq<Teacher>)
    ensures (forall i, j :: 0 <= i < j < |teachers| ==> teachers[i].dim.user != teachers[j].dim.user) ==>
      Lefts(InnerJoin(events, teachers, (e: Event) => e.user, (t: Teacher) => t.dim.user))
        == Select(events, (e: Event) => exists t :: t in teachers && t.dim.user == e.user)
  {
    if forall i, j :: 0 <= i < j < |teachers| ==> teachers[i].dim.user != teachers[j].dim.user {
      InnerJoinInOrder(events, teachers, (e: Event) => e.user, (t: Teacher) => t.dim.user,
        (e: Event) => exists t :: t in teachers && t.dim.user == e.user);
    }
  }

  /** The dimension rows behind some teachers. */
  function Dims(ts: seq<Teacher>): (ds: seq<DimTeacher>)
    ensures |ds| == |ts| && forall i :: 0 <= i < |ts| ==> ds[i] == ts[i].dim
  {
    seq(|ts|, i requires 0 <= i < |ts| => ts[i].dim)
  }

  /** The events behind some entries. */
  function EntryEvents(xs: seq<Entry>): (es: seq<Event>)
    ensures |es| == |xs| && forall i :: 0 <= i < |xs| ==> es[i] == xs[i].event
  {
    seq(|xs|, i requires 0 <= i < |xs| => xs[i].event)
  }

  /** `dim_teachers.merge(rfm, on='unique_id', how='inner')` with the
      `semana_entrada` bucket of line 36. With one `rfm` row per user the
      merge keeps, in their order and once each, the dimension rows whose
      user has an `rfm` row. */
  function MergeTeachers(dims: seq<DimTeacher>, rfm: seq<RfmRecord>): (r: seq<Teacher>)
    ensures forall t: Teacher :: t in r <==>
      && t.dim in dims && t.rfm in rfm && t.dim.user == t.rfm.user
      && t.weekOfEntry == Date(BackToMonday(t.dim.entryDate))
    ensures (forall i, j :: 0 <= i < j < |rfm| ==> rfm[i].user != rfm[j].user) ==>
      Dims(r) == Select(dims, (d: DimTeacher) => exists x :: x in rfm && x.user == d.user)
    ensures (forall i, j :: 0 <= i < j < |rfm| ==> rfm[i].user != rfm[j].user) ==> |r| <= |dims|
  {
    var pairs := InnerJoin(dims, rfm, (d: DimTeacher) => d.user, (x: RfmRecord) => x.user);
    TeacherJoinNoFanOut(dims, rfm);
    TeacherJoinInOrder(dims, rfm);
    var r := seq(|pairs|, i requires 0 <= i < |pairs| => Teacher(pairs[i].0, pairs[i].1, Date(BackToMonday(pairs[i].0.entryDate))));
    assert Dims(r) == Lefts(pairs);
    assert forall t: Teacher :: t in r ==> (t.dim, t.rfm) in pairs;
    assert forall t: Teacher :: t.dim in dims && t.rfm in rfm && t.dim.user == t.rfm.user && t.weekOfEntry == Date(BackToMonday(t.dim.entryDate)) ==> t in r by {
      forall t: Teacher | t.dim in dims && t.rfm in rfm && t.dim.user == t.rfm.user && t.weekOfEntry == Date(BackToMonday(t.dim.entryDate))
        ensures t in r
      {
        assert (t.dim, t.rfm) in pairs;
        var i :| 0 <= i < |pairs| && pairs[i] == (t.dim, t.rfm);
        assert r[i] == t;
      }
    }
    r
  }

  /** `df.merge(teachers, on='unique_id', how='inner')`, each event with its
      minutes. With one teacher row per user the merge keeps, in table order
      and once each, the events whose user is a teacher. */
  function MergeEntries(events: seq<Event>, teachers: seq<Teacher>): (r: seq<Entry>)
    ensures forall x: Entry :: x in r <==>
      && x.event in events && x.teacher in teachers && x.event.user == x.teacher.dim.user
      && x.minutes == DurationMinutes(x.event)
    ensures (forall i, j :: 0 <= i < j < |teachers| ==> teachers[i].dim.user != teachers[j].dim.user) ==>
      EntryEvents(r) == Select(events, (e: Event) => exists t :: t in teachers && t.dim.user == e.user)
  {
    var pairs := InnerJoin(events, teachers, (e: Event) => e.user, (t: Teacher) => t.dim.user);
    EntryJoinInOrder(events, teachers);
    var r := seq(|pairs|, i requires 0 <= i < |pairs| => Entry(pairs[i].0, DurationMinutes(pairs[i].0), pairs[i].1));
    assert EntryEvents(r) == Lefts(pairs);
    assert forall x: Entry :: x in r ==> (x.event, x.teacher) in pairs;
    assert forall x: Entry :: x.event in events && x.teacher in teachers && x.event.user == x.teacher.dim.user && x.minutes == DurationMinutes(x.event) ==> x in r by {
      forall x: Entry | x.event in events && x.teacher in teachers && x.event.user == x.teacher.dim.user && x.minutes == DurationMinutes(x.event)
        ensures x in r
      {
        assert (x.event, x.teacher) in pairs;
        var i :| 0 <= i < |pairs| && pairs[i] == (x.event, x.teacher);
        assert r[i] == x;
      }
    }
    r
  }

  /** The whole script: the `teachers` and `entries` tables it writes, or
      the score column whose `qcut` raised. */
  function Transform(events: seq<Event>, dims: seq<DimTeacher>): (r: Result<(seq<Teacher>, seq<Entry>), ScoreColumn>)
    ensures r.Ok? <==> Score(Aggregate(events)).Ok?
    ensures r.Err? ==> r.error == Score(Aggregate(events)).error
    ensures r.Ok? ==> |r.value.0| <= |dims|
  {
    match Score(Aggregate(events))
    case Err(c) => Err(c)
    case Ok(rfm) =>
      var teachers := MergeTeachers(dims, rfm);
      Ok((teachers, MergeEntries(events, teachers)))
  }

  /** Ascending Frequencies make an ascending Frequency column. */
  lemma FrequenciesAscending(ms: seq<Metrics>)
    requires forall a, b :: 0 <= a <= b < |ms| ==> ms[a].frequency <= ms[b].frequency
    ensures forall a, b :: 0 <= a <= b < |FrequencyColumn(ms)| ==> FrequencyColumn(ms)[a] <= FrequencyColumn(ms)[b]
  {
  }

  /** Scored users in row order, their F score being `fScore(rank)`. */
  lemma FScoresOfRanks(ms: seq<Metrics>, n: nat)
    requires Score(ms).Ok? && |ms| == n
    requires QcutBins(RanksFirst(FrequencyColumn(ms))).Ok?
    ensures forall i :: 0 <= i < n ==> Score(ms).value[i].fScore == QcutBins(RanksFirst(FrequencyColumn(ms))).value[i]
  {
    forall i | 0 <= i < n
      ensures Score(ms).value[i].fScore == QcutBins(RanksFirst(FrequencyColumn(ms))).value[i]
    {
      ScoresAreBins(ms, i);
    }
  }

  /** Ten users: the F score pairs up the Frequency ranks, and with
      Frequencies already ascending it reads 1, 1, 2, 2, 3, 3, 4, 4, 5, 5. */
  lemma FScoreTenUsers(ms: seq<Metrics>)
    requires Score(ms).Ok? && |ms| == 10
    ensures forall i :: 0 <= i < 10 ==> Score(ms).value[i].fScore == (RankFirst(FrequencyColumn(ms), i) + 1) / 2
    ensures (forall a, b :: 0 <= a <= b < 10 ==> ms[a].frequency <= ms[b].frequency) ==>
      forall i :: 0 <= i < 10 ==> Score(ms).value[i].fScore == (i + 2) / 2
  {
    var f := FrequencyColumn(ms);
    TenRanksPairUp(f);
    FScoresOfRanks(ms, 10);
    if forall a, b :: 0 <= a <= b < 10 ==> ms[a].frequency <= ms[b].frequency {
      FrequenciesAscending(ms);
      forall i | 0 <= i < 10
        ensures RankFirst(f, i) == i + 1
      {
        RankFirstOfNonDecreasing(f, i);
      }
    }
  }

  /** Five users get five different F scores, their Frequency ranks, even
      when all their Frequencies are equal (then 1 to 5 in row order). */
  lemma FScoreFiveUsers(ms: seq<Metrics>)
    requires Score(ms).Ok? && |ms| == 5
    ensures forall i :: 0 <= i < 5 ==> Score(ms).value[i].fScore == RankFirst(FrequencyColumn(ms), i)
    ensures (forall a, b :: 0 <= a < b < 5 ==> ms[a].frequency == ms[b].frequency) ==>
      forall i :: 0 <= i < 5 ==> Score(ms).value[i].fScore == i + 1
  {
    var f := FrequencyColumn(ms);
    FiveRanksSpread(f);
    FScoresOfRanks(ms, 5);
    if forall a, b :: 0 <= a < b < 5 ==> ms[a].frequency == ms[b].frequency {
      AscendingRanks(ms);
    }
  }

  /** Equal Frequencies are ascending, so each row's rank is its position. */
  lemma AscendingRanks(ms: seq<Metrics>)
    requires forall a, b :: 0 <= a < b < |ms| ==> ms[a].frequency == ms[b].frequency
    ensures forall i :: 0 <= i < |ms| ==> RankFirst(FrequencyColumn(ms), i) == i + 1
  {
    var f := FrequencyColumn(ms);
    assert forall a, b :: 0 <= a <= b < |ms| ==> ms[a].frequency <= ms[b].frequency by {
      forall a, b | 0 <= a <= b < |ms|
        ensures ms[a].frequency <= ms[b].frequency
      {
        if a < b {
          assert ms[a].frequency == ms[b].frequency;
        }
      }
    }
    FrequenciesAscending(ms);
    forall i | 0 <= i < |ms|
      ensures RankFirst(f, i) == i + 1
    {
      RankFirstOfNonDecreasing(f, i);
    }
  }

  /** The rows of `rfm` are those of the aggregate, one per user with events,
      users ascending. */
  lemma ScoredUsers(events: seq<Event>)
    requires Score(Aggregate(events)).Ok?
    ensures forall i, j :: 0 <= i < j < |Score(Aggregate(events)).value| ==>
      Score(Aggregate(events)).value[i].user < Score(Aggregate(events)).value[j].user
    ensures forall x :: x in Score(Aggregate(events)).value ==> x.user in Users(events)
    ensures forall u :: u in Users(events) ==> exists x :: x in Score(Aggregate(events)).value && x.user == u
  {
    var ms := Aggregate(events);
    SameUsers(Users(events), ms, Score(ms).value);
  }

  /** Records carrying the users of some metrics row by row have the same
      users, in the same order. */
  lemma SameUsers(us: seq<UserId>, ms: seq<Metrics>, rfm: seq<RfmRecord>)
    requires forall i, j :: 0 <= i < j < |ms| ==> ms[i].user < ms[j].user
    requires forall u :: u in us <==> exists i :: 0 <= i < |ms| && ms[i].user == u
    requires |rfm| == |ms| && forall i :: 0 <= i < |ms| ==> rfm[i].user == ms[i].user
    ensures forall i, j :: 0 <= i < j < |rfm| ==> rfm[i].user < rfm[j].user
    ensures forall x :: x in rfm ==> x.user in us
    ensures forall u :: u in us ==> exists x :: x in rfm && x.user == u
  {
    forall x | x in rfm
      ensures x.user in us
    {
      var i :| 0 <= i < |rfm| && rfm[i] == x;
      assert ms[i].user == x.user;
    }
    forall u | u in us
      ensures exists x :: x in rfm && x.user == u
    {
      var i :| 0 <= i < |ms| && ms[i].user == u;
      assert rfm[i] in rfm;
    }
  }

  /** `teachers` holds the teachers of the dimension who have events, each
      with the `rfm` row of their user and the Monday of their entry week; a
      teacher without events is dropped. Its dimension column is, in order,
      exactly the dimension rows whose user has events. */
  lemma TransformTeachers(events: seq<Event>, dims: seq<DimTeacher>)
    requires Transform(events, dims).Ok?
    ensures forall t :: t in Transform(events, dims).value.0 ==>
      && t.dim in dims && t.dim.user in Users(events)
      && t.rfm in Score(Aggregate(events)).value && t.rfm.user == t.dim.user
      && t.weekOfEntry == WeekStartDate(t.dim.entryDate)
    ensures forall d :: d in dims && d.user in Users(events) ==>
      exists t :: t in Transform(events, dims).value.0 && t.dim == d
    ensures Dims(Transform(events, dims).value.0) == Select(dims, (d: DimTeacher) => d.user in Users(events))
    ensures |Transform(events, dims).value.0| <= |dims|
  {
    ScoredUsers(events);
    var rfm := Score(Aggregate(events)).value;
    var teachers := Transform(events, dims).value.0;
    assert teachers == MergeTeachers(dims, rfm);
    SelectExt(dims, (d: DimTeacher) => exists x :: x in rfm && x.user == d.user, (d: DimTeacher) => d.user in Users(events));
    forall t | t in teachers
      ensures t.weekOfEntry == WeekStartDate(t.dim.entryDate)
    {
      DateOfBackToMonday(t.dim.entryDate);
    }
    forall d | d in dims && d.user in Users(events)
      ensures exists t :: t in teachers && t.dim == d
    {
      var x :| x in rfm && x.user == d.user;
      assert Teacher(d, x, Date(BackToMonday(d.entryDate))) in teachers;
    }
  }

  lemma UserOfEvent(events: seq<Event>, e: Event)
    requires e in events
    ensures e.user in Users(events)
  {
    var k :| 0 <= k < |events| && events[k] == e;
    assert Users(events)[k] == e.user;
  }

  lemma EntryOfTeacher(events: seq<Event>, teachers: seq<Teacher>, e: Event, t: Teacher)
    requires e in events && t in teachers && t.dim.user == e.user
    ensures Entry(e, DurationMinutes(e), t) in MergeEntries(events, teachers)
  {
  }

  /** `entries` pairs every event of a teacher in `teachers` with that
      teacher, and holds nothing else. With one dimension row per user its
      event column is, in table order and once each, the events of users in
      the dimension. */
  lemma TransformEntries(events: seq<Event>, dims: seq<DimTeacher>)
    requires Transform(events, dims).Ok?
    ensures forall x :: x in Transform(events, dims).value.1 ==>
      && x.event in events && x.teacher in Transform(events, dims).value.0
      && x.teacher.dim.user == x.event.user && x.minutes == DurationMinutes(x.event)
    ensures forall e, d :: e in events && d in dims && d.user == e.user ==>
      exists x :: x in Transform(events, dims).value.1 && x.event == e && x.teacher.dim == d
    ensures (forall i, j :: 0 <= i < j < |dims| ==> dims[i].user != dims[j].user) ==>
      EntryEvents(Transform(events, dims).value.1) == Select(events, (e: Event) => exists d :: d in dims && d.user == e.user)
  {
    EntriesInOrder(events, dims);
    TransformTeachers(events, dims);
    var teachers := Transform(events, dims).value.0;
    var entries := Transform(events, dims).value.1;
    assert entries == MergeEntries(events, teachers);
    forall e, d | e in events && d in dims && d.user == e.user
      ensures exists x :: x in entries && x.event == e && x.teacher.dim == d
    {
      UserOfEvent(events, e);
      var t :| t in teachers && t.dim == d;
      EntryOfTeacher(events, teachers, e, t);
    }
  }

  /** With one dimension row per user, each event of a user in the
      dimension meets exactly one teacher row. */
  lemma EntriesInOrder(events: seq<Event>, dims: seq<DimTeacher>)
    requires Transform(events, dims).Ok?
    ensures (forall i, j :: 0 <= i < j < |dims| ==> dims[i].user != dims[j].user) ==>
      EntryEvents(Transform(events, dims).value.1) == Select(events, (e: Event) => exists d :: d in dims && d.user == e.user)
  {
    if forall i, j :: 0 <= i < j < |dims| ==> dims[i].user != dims[j].user {
      TransformTeachers(events, dims);
      var teachers := Transform(events, dims).value.0;
      assert Transform(events, dims).value.1 == MergeEntries(events, teachers);
      EntriesOfTeachers(events, dims, teachers);
    }
  }

  /** The entry merge over teachers that are, in order, the dimension rows
      whose user has events. */
  lemma EntriesOfTeachers(events: seq<Event>, dims: seq<DimTeacher>, teachers: seq<Teacher>)
    requires forall i, j :: 0 <= i < j < |dims| ==> dims[i].user != dims[j].user
    requires Dims(teachers) == Select(dims, (d: DimTeacher) => d.user in Users(events))
    ensures EntryEvents(MergeEntries(events, teachers)) == Select(events, (e: Event) => exists d :: d in dims && d.user == e.user)
  {
    TeacherKeysDistinct(events, dims, teachers);
    TeacherOwners(events, dims, teachers);
    var r := MergeEntries(events, teachers);
    SelectExt(events, (e: Event) => exists t :: t in teachers && t.dim.user == e.user,
      (e: Event) => exists d :: d in dims && d.user == e.user);
  }

  lemma TeacherKeysDistinct(events: seq<Event>, dims: seq<DimTeacher>, teachers: seq<Teacher>)
    requires forall i, j :: 0 <= i < j < |dims| ==> dims[i].user != dims[j].user
    requires Dims(teachers) == Select(dims, (d: DimTeacher) => d.user in Users(events))
    ensures forall i, j :: 0 <= i < j < |teachers| ==> teachers[i].dim.user != teachers[j].dim.user
  {
    SelectKeepsDistinctKeys(dims, (d: DimTeacher) => d.user in Users(events), (d: DimTeacher) => d.user);
  }

  /** An event's user is a teacher exactly when it is in the dimension. */
  lemma TeacherOwners(events: seq<Event>, dims: seq<DimTeacher>, teachers: seq<Teacher>)
    requires Dims(teachers) == Select(dims, (d: DimTeacher) => d.user in Users(events))
    ensures forall e :: e in events ==>
      (exists t :: t in teachers && t.dim.user == e.user) == (exists d :: d in dims && d.user == e.user)
  {
    var ds := Dims(teachers);
    forall e | e in events
      ensures (exists t :: t in teachers && t.dim.user == e.user) == (exists d :: d in dims && d.user == e.user)
    {
      UserOfEvent(events, e);
      if t :| t in teachers && t.dim.user == e.user {
        var k :| 0 <= k < |teachers| && teachers[k] == t;
        assert ds[k] in ds;
      }
      if d :| d in dims && d.user == e.user {
        assert d in ds;
        var k :| 0 <= k < |ds| && ds[k] == d;
        assert teachers[k] in teachers;
      }
    }
  }
}
