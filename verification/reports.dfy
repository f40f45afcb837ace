/** Crowd-report aggregation: `GetAnswersAndReports` (card.py). The report
    store query becomes an input sequence in store order, and the clock
    becomes the parameter `now`. Times are integers in microseconds, the
    resolution of Python's `datetime`. */
module CrowdReports {
  import opened Common
  import opened PyText
  import opened Sorting

  /** Number of crowd reports kept per feature. */
  const REPORTS_PER_FEATURE: nat := 5

  const MICROSECONDS_PER_DAY: int := 24 * 60 * 60 * 1000000

  /** Answers at least this old (seven days) are ignored. */
  const MAX_ANSWER_AGE: int := 7 * MICROSECONDS_PER_DAY

  /** A scalar answer value as stored in a report. */
  datatype Answer = Text(s: string) | Num(n: int) | Null

  /** Python truthiness of an answer. */
  predicate Truthy(a: Answer) {
    match a
    case Text(s) => s != ""
    case Num(n) => n != 0
    case Null => false
  }

  /** The test `answer or answer == 0`: truthy, or equal to zero. */
  predicate NonEmpty(a: Answer) {
    Truthy(a) || a == Num(0)
  }

  /** Only `None` and the empty string count as empty; zero does not. */
  lemma NonEmptyMeansPresent(a: Answer)
    ensures NonEmpty(a) <==> a != Null && a != Text("")
  {
  }

  /** One stored crowd report: `answers` lists `report.answers.items()` in
      iteration order, keyed by full question id (`map.topic.question`). */
  datatype CrowdReport = CrowdReport(
    id: string,
    answers: seq<(string, Answer)>,
    text: Answer,
    effective: int)

  /** One entry of the snapshot: the report's topic-scoped answers keyed by
      short question id, plus its `_effective` time and `_id`. */
  datatype ReportDict = ReportDict(answers: map<string, Answer>, effective: int, id: string)

  /** The running `answers` and `answer_times` dictionaries. */
  datatype Tally = Tally(answers: map<string, Answer>, times: map<string, int>)

  /** The 3-tuple `(latest_answers, answer_times, report_dicts)`. */
  datatype Aggregate = Aggregate(
    latestAnswers: map<string, Answer>,
    answerTimes: map<string, int>,
    reportDicts: seq<ReportDict>)

  function FullTopicId(mapId: string, topicId: string): string {
    mapId + "." + topicId
  }

  predicate Fresh(now: int, r: CrowdReport) {
    now - r.effective < MAX_ANSWER_AGE
  }

  /** The pairs a report's inner loop walks: its answers, then its comment
      under the synthetic question `<full topic id>._text`. */
  function Entries(full: string, r: CrowdReport): seq<(string, Answer)> {
    r.answers + [(full + "._text", r.text)]
  }

  ghost predicate HasUndottedKey(r: CrowdReport) {
    exists j :: 0 <= j < |r.answers| && '.' !in r.answers[j].0
  }

  /** The entries whose id splits at its last dot into `full` and a short id,
      re-keyed by that short id, in order; `None` when some id has no dot and
      `rsplit` unpacking raises. */
  function ScopedEntries(full: string, entries: seq<(string, Answer)>): (r: Option<seq<(string, Answer)>>)
    ensures r.None? <==> exists i :: 0 <= i < |entries| && '.' !in entries[i].0
  {
    if entries == [] then Some([])
    else
      var init := entries[..|entries| - 1];
      var last := entries[|entries| - 1];
      assert forall i :: 0 <= i < |init| ==> init[i] == entries[i];
      match ScopedEntries(full, init)
      case None => None
      case Some(es) =>
        match RSplitDot(last.0)
        case None => None
        case Some(split) => Some(if split.0 == full then es + [(split.1, last.1)] else es)
  }

  /** An entry is kept, as `(q, a)`, exactly when its id is `full + "." + q`
      with a dot-free `q`. */
  lemma {:induction false} ScopedEntriesMembers(full: string, entries: seq<(string, Answer)>)
    requires ScopedEntries(full, entries).Some?
    ensures forall q, a :: (q, a) in ScopedEntries(full, entries).value
                           <==> '.' !in q && (full + "." + q, a) in entries
  {
    if entries != [] {
      var init := entries[..|entries| - 1];
      var last := entries[|entries| - 1];
      assert entries == init + [last];
      ScopedEntriesMembers(full, init);
      var split := RSplitDot(last.0).value;
      forall q, a ensures (q, a) in ScopedEntries(full, entries).value
                          <==> '.' !in q && (full + "." + q, a) in entries {
        if '.' !in q && last.0 == full + "." + q {
          RSplitDotOfJoin(full, q);
        }
      }
    }
  }

  /** The dictionary `report_dict` built by assigning each scoped entry in
      turn: every scoped id is a key, and the last assignment wins. */
  function BuildDict(es: seq<(string, Answer)>): (d: map<string, Answer>)
    ensures d.Keys == set e | e in es :: e.0
    ensures forall q :: q in d ==> (q, d[q]) in es
    ensures es != [] ==> d[es[|es| - 1].0] == es[|es| - 1].1
  {
    if es == [] then map[]
    else
      var init := es[..|es| - 1];
      assert es == init + [es[|es| - 1]];
      BuildDict(init)[es[|es| - 1].0 := es[|es| - 1].1]
  }

  /** The body of the inner loop for one scoped entry answered at time `e`:
      no answer time ever goes back, other questions are left alone, and `q`
      takes `a` only when `a` is non-empty. */
  function Record(t: Tally, q: string, a: Answer, e: int): (r: Tally)
    ensures forall k :: k in t.times ==> k in r.times && t.times[k] <= r.times[k]
    ensures forall k :: k != q ==> (k in r.times <==> k in t.times) && (k in r.answers <==> k in t.answers)
    ensures forall k :: k != q && k in t.times ==> r.times[k] == t.times[k]
    ensures forall k :: k != q && k in t.answers ==> r.answers[k] == t.answers[k]
    ensures r != t ==> NonEmpty(a) && q in r.answers && q in r.times && r.answers[q] == a && r.times[q] == e
  {
    if NonEmpty(a) && (q !in t.times || e > t.times[q]) then
      Tally(t.answers[q := a], t.times[q := e])
    else t
  }

  /** The inner loop over one report's scoped entries, all at time `e`. */
  function RecordAll(t: Tally, es: seq<(string, Answer)>, e: int): (r: Tally)
    ensures t.answers.Keys == t.times.Keys ==> r.answers.Keys == r.times.Keys
  {
    if es == [] then t
    else Record(RecordAll(t, es[..|es| - 1], e), es[|es| - 1].0, es[|es| - 1].1, e)
  }

  /** The first non-empty answer to `q` among scoped entries. */
  function FirstNonEmpty(es: seq<(string, Answer)>, q: string): (r: Option<Answer>)
    ensures r.Some? ==> NonEmpty(r.value) && (q, r.value) in es
    ensures r.Some? ==> exists i :: 0 <= i < |es| && es[i] == (q, r.value) && NoAnswerBefore(es, q, i)
    ensures r.None? <==> forall i :: 0 <= i < |es| && es[i].0 == q ==> !NonEmpty(es[i].1)
  {
    if es == [] then None
    else
      var init := es[..|es| - 1];
      var last := es[|es| - 1];
      assert es == init + [last];
      match FirstNonEmpty(init, q)
      case Some(a) =>
        var i :| 0 <= i < |init| && init[i] == (q, a) && NoAnswerBefore(init, q, i);
        NoAnswerBeforeExtend(init, last, q, i);
        Some(a)
      case None =>
        if last.0 == q && NonEmpty(last.1) then
          assert NoAnswerBefore(es, q, |es| - 1);
          Some(last.1)
        else None
  }

  /** No entry before position `i` gives `q` a non-empty answer. */
  predicate NoAnswerBefore(es: seq<(string, Answer)>, q: string, i: nat)
    requires i <= |es|
  {
    forall j :: 0 <= j < i && es[j].0 == q ==> !NonEmpty(es[j].1)
  }

  lemma NoAnswerBeforeExtend(init: seq<(string, Answer)>, last: (string, Answer), q: string, i: nat)
    requires i < |init| && NoAnswerBefore(init, q, i)
    ensures (init + [last])[i] == init[i] && NoAnswerBefore(init + [last], q, i)
  {
    var es := init + [last];
    forall j | 0 <= j < i ensures es[j] == init[j] {
    }
  }

  /** A report's contribution to question `q`: its first non-empty in-topic
      answer to `q`, if any. */
  function AnswerIn(full: string, r: CrowdReport, q: string): Option<Answer> {
    match ScopedEntries(full, Entries(full, r))
    case Some(es) => FirstNonEmpty(es, q)
    case None => None
  }

  /** The effect of one report on one question of the tally: it sets `q` to
      its own answer and time exactly when it answers `q` and is strictly
      newer than the time held so far; otherwise `q` is untouched. */
  lemma {:induction false} RecordAllAt(t: Tally, es: seq<(string, Answer)>, e: int, q: string)
    requires t.answers.Keys == t.times.Keys
    ensures var r := RecordAll(t, es, e);
      if FirstNonEmpty(es, q).Some? && (q !in t.times || e > t.times[q]) then
        q in r.times && r.times[q] == e && r.answers[q] == FirstNonEmpty(es, q).value
      else
        (q in r.times <==> q in t.times) &&
        (q in t.times ==> r.times[q] == t.times[q] && r.answers[q] == t.answers[q])
  {
    if es != [] {
      var init := es[..|es| - 1];
      RecordAllAt(t, init, e, q);
    }
  }

  datatype Collected = Collected(tally: Tally, dicts: seq<ReportDict>)

  /** The outer loop over the reports in store order: stale reports are
      skipped, a fresh one updates the tally and appends its dictionary.
      `None` when some fresh report has an answer id without a dot. */
  function Collect(full: string, now: int, reports: seq<CrowdReport>): (r: Option<Collected>)
    ensures r.Some? ==> r.value.tally.answers.Keys == r.value.tally.times.Keys
  {
    if reports == [] then Some(Collected(Tally(map[], map[]), []))
    else CollectStep(full, now, Collect(full, now, reports[..|reports| - 1]), reports[|reports| - 1])
  }

  /** One pass of the outer loop, on the state left by the reports before. */
  function CollectStep(full: string, now: int, before: Option<Collected>, last: CrowdReport): (r: Option<Collected>)
    requires before.Some? ==> before.value.tally.answers.Keys == before.value.tally.times.Keys
    ensures r.Some? ==> r.value.tally.answers.Keys == r.value.tally.times.Keys
    ensures !Fresh(now, last) ==> r == before
  {
    match before
    case None => None
    case Some(c) =>
      if !Fresh(now, last) then Some(c)
      else
        match ScopedEntries(full, Entries(full, last))
        case None => None
        case Some(es) =>
          Some(Collected(RecordAll(c.tally, es, last.effective),
                         c.dicts + [ReportDict(BuildDict(es), last.effective, last.id)]))
  }

  /** The sort key of `report_dicts`. */
  function EffectiveKey(d: ReportDict): real {
    d.effective as real
  }

  /** `report_dicts.sort(key=_effective)` followed by `reverse()`. */
  function NewestFirst(dicts: seq<ReportDict>): (r: seq<ReportDict>)
    ensures |r| == |dicts|
    ensures NonIncreasingBy(r, EffectiveKey)
    ensures multiset(r) == multiset(dicts)
  {
    var sorted := StableSort(dicts, EffectiveKey);
    ReverseSortedIsNonIncreasing(sorted, EffectiveKey);
    ReverseMultiset(sorted);
    Reverse(sorted)
  }

  /** The snapshot: newest first, cut to `REPORTS_PER_FEATURE`. */
  function Snapshot(dicts: seq<ReportDict>): (r: seq<ReportDict>)
    ensures |r| == Min(REPORTS_PER_FEATURE, |dicts|)
    ensures NonIncreasingBy(r, EffectiveKey)
    ensures multiset(r) <= multiset(dicts)
  {
    var newestFirst := NewestFirst(dicts);
    var r := Take(newestFirst, REPORTS_PER_FEATURE as int);
    PrefixNonIncreasing(newestFirst, EffectiveKey, |r|);
    PrefixMultiset(newestFirst, |r|);
    r
  }

  /** The fresh reports, in store order (FreshReportsAppend gives the
      order). */
  function FreshReports(now: int, reports: seq<CrowdReport>): (r: seq<CrowdReport>)
    ensures forall i :: 0 <= i < |r| ==> r[i] in reports && Fresh(now, r[i])
    ensures forall i :: 0 <= i < |reports| && Fresh(now, reports[i]) ==> reports[i] in r
  {
    if reports == [] then []
    else
      var init := reports[..|reports| - 1];
      var last := reports[|reports| - 1];
      assert forall x :: x in init ==> x in reports;
      var r := FreshReports(now, init) + (if Fresh(now, last) then [last] else []);
      assert forall i :: 0 <= i < |init| ==> reports[i] == init[i];
      r
  }

  /** Filtering the fresh reports distributes over concatenation; with the
      one-report case this fixes both the contents and the order. */
  lemma {:induction false} FreshReportsAppend(now: int, a: seq<CrowdReport>, b: seq<CrowdReport>)
    ensures FreshReports(now, a + b) == FreshReports(now, a) + FreshReports(now, b)
  {
    if b == [] {
      assert a + b == a;
    } else {
      var init := b[..|b| - 1];
      var last := b[|b| - 1];
      assert b == init + [last];
      assert a + b == (a + init) + [last];
      FreshReportsAppend(now, a, init);
      FreshSnoc(now, a + init, last);
      FreshSnoc(now, init, last);
    }
  }

  lemma FreshSnoc(now: int, reports: seq<CrowdReport>, last: CrowdReport)
    ensures FreshReports(now, reports + [last]) ==
              FreshReports(now, reports) + (if Fresh(now, last) then [last] else [])
  {
    var s := reports + [last];
    assert s[..|s| - 1] == reports && s[|s| - 1] == last;
  }

  /** One report is kept exactly when it is fresh. */
  lemma FreshReportsSingle(now: int, x: CrowdReport)
    ensures FreshReports(now, [x]) == if Fresh(now, x) then [x] else []
  {
    assert [x][..0] == [];
  }

  /** The dictionary a fresh report contributes to the snapshot. */
  function ReportDictOf(full: string, r: CrowdReport): Option<ReportDict> {
    match ScopedEntries(full, Entries(full, r))
    case Some(es) => Some(ReportDict(BuildDict(es), r.effective, r.id))
    case None => None
  }

  /** GetAnswersAndReports over the reports the store returned, in order. */
  function GetAnswersAndReports(mapId: string, topicId: string, reports: seq<CrowdReport>, now: int)
    : (r: Result<Aggregate>)
    ensures r.Ok? ==> r.value.latestAnswers.Keys == r.value.answerTimes.Keys
    ensures r.Ok? ==> |r.value.reportDicts| <= REPORTS_PER_FEATURE
    ensures r.Ok? ==> NonIncreasingBy(r.value.reportDicts, EffectiveKey)
  {
    match Collect(FullTopicId(mapId, topicId), now, reports)
    case None => Raised("ValueError")
    case Some(c) => Ok(Aggregate(c.tally.answers, c.tally.times, Snapshot(c.dicts)))
  }
}

/** Properties of `GetAnswersAndReports`. */
module CrowdReportFacts {
  import opened Common
  import opened PyText
  import opened Sorting
  import opened CrowdReports

  lemma EntriesScopedIffDotted(full: string, r: CrowdReport)
    ensures ScopedEntries(full, Entries(full, r)).None? <==> HasUndottedKey(r)
  {
    var en := Entries(full, r);
    assert en[|en| - 1].0 == full + "._text";
    assert (full + "._text")[|full|] == '.';
    if HasUndottedKey(r) {
      var j :| 0 <= j < |r.answers| && '.' !in r.answers[j].0;
      assert en[j] == r.answers[j];
    }
    if ScopedEntries(full, en).None? {
      var i :| 0 <= i < |en| && '.' !in en[i].0;
      assert i < |r.answers| && en[i] == r.answers[i];
    }
  }

  /** The aggregation raises exactly when some fresh report has an answer
      whose id has no dot; stale reports are never split. */
  lemma {:induction false} RaisesIffUndottedFreshKey(mapId: string, topicId: string, reports: seq<CrowdReport>, now: int)
    ensures GetAnswersAndReports(mapId, topicId, reports, now).Raised?
        <==> exists i :: 0 <= i < |reports| && Fresh(now, reports[i]) && HasUndottedKey(reports[i])
  {
    CollectNoneIff(FullTopicId(mapId, topicId), now, reports);
  }

  lemma {:induction false} CollectNoneIff(full: string, now: int, reports: seq<CrowdReport>)
    ensures Collect(full, now, reports).None?
        <==> exists i :: 0 <= i < |reports| && Fresh(now, reports[i]) && HasUndottedKey(reports[i])
  {
    if reports != [] {
      var init := reports[..|reports| - 1];
      var last := reports[|reports| - 1];
      CollectNoneIff(full, now, init);
      EntriesScopedIffDotted(full, last);
      assert forall i :: 0 <= i < |init| ==> init[i] == reports[i];
      if exists i :: 0 <= i < |reports| && Fresh(now, reports[i]) && HasUndottedKey(reports[i]) {
        var i :| 0 <= i < |reports| && Fresh(now, reports[i]) && HasUndottedKey(reports[i]);
        if i < |init| {
          assert Fresh(now, init[i]) && HasUndottedKey(init[i]);
        }
      }
    }
  }

  /** Report `r` gives a non-empty in-topic answer to `q`, and is live. */
  ghost predicate Answers(full: string, now: int, r: CrowdReport, q: string) {
    Fresh(now, r) && AnswerIn(full, r, q).Some?
  }

  /** Report `i` is the one whose answer to `q` wins: it answers `q` at time
      `time` with answer `a`, no report answers `q` later, and every earlier
      report answering `q` does so strictly earlier. */
  ghost predicate Winner(full: string, now: int, reports: seq<CrowdReport>, q: string, i: int, time: int, a: Answer) {
    && 0 <= i < |reports|
    && Answers(full, now, reports[i], q)
    && reports[i].effective == time
    && AnswerIn(full, reports[i], q) == Some(a)
    && (forall j :: 0 <= j < |reports| && Answers(full, now, reports[j], q) ==> reports[j].effective <= time)
    && (forall j :: 0 <= j < i && Answers(full, now, reports[j], q) ==> reports[j].effective < time)
  }

  ghost predicate LatestWins(full: string, now: int, reports: seq<CrowdReport>, t: Tally, q: string) {
    && (q in t.times <==> exists i :: 0 <= i < |reports| && Answers(full, now, reports[i], q))
    && (q in t.times ==> q in t.answers && exists i :: Winner(full, now, reports, q, i, t.times[q], t.answers[q]))
  }

  /** How one more report changes question `q` of the tally. */
  ghost predicate StepAt(full: string, now: int, last: CrowdReport, c: Tally, t: Tally, q: string) {
    if Answers(full, now, last, q) && (q !in c.times || last.effective > c.times[q]) then
      q in t.times && q in t.answers && t.times[q] == last.effective && t.answers[q] == AnswerIn(full, last, q).value
    else
      (q in t.times <==> q in c.times) && (q in t.answers <==> q in c.answers) &&
      (q in c.times ==> q in c.answers && t.times[q] == c.times[q] && t.answers[q] == c.answers[q])
  }

  /** A newer answer from the last report makes it the winner. */
  lemma StepNewWinner(full: string, now: int, init: seq<CrowdReport>, last: CrowdReport, c: Tally, t: Tally, q: string)
    requires LatestWins(full, now, init, c, q)
    requires Answers(full, now, last, q) && (q !in c.times || last.effective > c.times[q])
    requires StepAt(full, now, last, c, t, q)
    ensures LatestWins(full, now, init + [last], t, q)
  {
    var reports := init + [last];
    var n := |reports|;
    assert forall i :: 0 <= i < n - 1 ==> init[i] == reports[i];
    forall j | 0 <= j < n - 1 && Answers(full, now, reports[j], q)
      ensures reports[j].effective < last.effective
    {
      assert Answers(full, now, init[j], q);
      var i :| Winner(full, now, init, q, i, c.times[q], c.answers[q]);
    }
    assert Winner(full, now, reports, q, n - 1, t.times[q], t.answers[q]);
  }

  /** An answer from the last report that is not newer leaves the winner. */
  lemma StepSameWinner(full: string, now: int, init: seq<CrowdReport>, last: CrowdReport, c: Tally, t: Tally, q: string)
    requires LatestWins(full, now, init, c, q)
    requires !(Answers(full, now, last, q) && (q !in c.times || last.effective > c.times[q]))
    requires StepAt(full, now, last, c, t, q)
    ensures LatestWins(full, now, init + [last], t, q)
  {
    var reports := init + [last];
    var n := |reports|;
    assert forall i :: 0 <= i < n - 1 ==> init[i] == reports[i];
    if q in t.times {
      var i :| Winner(full, now, init, q, i, c.times[q], c.answers[q]);
      forall j | 0 <= j < n && Answers(full, now, reports[j], q)
        ensures reports[j].effective <= t.times[q]
      {
        if j < n - 1 {
          assert Answers(full, now, init[j], q);
        }
      }
      forall j | 0 <= j < i && Answers(full, now, reports[j], q)
        ensures reports[j].effective < t.times[q]
      {
        assert Answers(full, now, init[j], q);
      }
      assert Winner(full, now, reports, q, i, t.times[q], t.answers[q]);
    } else {
      forall i | 0 <= i < n ensures !Answers(full, now, reports[i], q) {
        if i < n - 1 {
          assert !Answers(full, now, init[i], q);
        }
      }
    }
  }

  lemma {:induction false} CollectLatestWins(full: string, now: int, reports: seq<CrowdReport>, q: string)
    requires Collect(full, now, reports).Some?
    ensures LatestWins(full, now, reports, Collect(full, now, reports).value.tally, q)
  {
    if reports != [] {
      var n := |reports|;
      var init := reports[..n - 1];
      var last := reports[n - 1];
      assert reports == init + [last];
      var c := Collect(full, now, init).value.tally;
      var t := Collect(full, now, reports).value.tally;
      CollectLatestWins(full, now, init, q);
      if Fresh(now, last) {
        var es := ScopedEntries(full, Entries(full, last)).value;
        RecordAllAt(c, es, last.effective, q);
      }
      assert StepAt(full, now, last, c, t, q);
      if Answers(full, now, last, q) && (q !in c.times || last.effective > c.times[q]) {
        StepNewWinner(full, now, init, last, c, t, q);
      } else {
        StepSameWinner(full, now, init, last, c, t, q);
      }
    }
  }

  /** Latest effective time wins: `answer_times` holds exactly the questions
      some fresh report answers in the topic; for each, the time is the
      largest effective time among those answers, and the answer is that of
      the first report in store order reaching it (the comparison is `>`). */
  lemma LatestAnswerWins(mapId: string, topicId: string, reports: seq<CrowdReport>, now: int, q: string)
    requires GetAnswersAndReports(mapId, topicId, reports, now).Ok?
    ensures var agg := GetAnswersAndReports(mapId, topicId, reports, now).value;
      var full := FullTopicId(mapId, topicId);
      && (q in agg.answerTimes <==> exists i :: 0 <= i < |reports| && Answers(full, now, reports[i], q))
      && (q in agg.answerTimes ==>
            exists i :: Winner(full, now, reports, q, i, agg.answerTimes[q], agg.latestAnswers[q]))
  {
    CollectLatestWins(FullTopicId(mapId, topicId), now, reports, q);
  }

  /** What a report contributes to question `q`: a non-empty answer filed in
      the report under `map.topic.q`, where `q` has no dot, and the first such
      one when the report holds several. */
  lemma AnswerInIsInTopic(full: string, r: CrowdReport, q: string)
    requires AnswerIn(full, r, q).Some?
    ensures '.' !in q
    ensures NonEmpty(AnswerIn(full, r, q).value)
    ensures (full + "." + q, AnswerIn(full, r, q).value) in Entries(full, r)
  {
    ScopedEntriesMembers(full, Entries(full, r));
  }

  /** Conversely, every non-empty answer filed under `map.topic.q` makes the
      report answer `q`. */
  lemma InTopicAnswerCounts(full: string, r: CrowdReport, q: string, a: Answer)
    requires ScopedEntries(full, Entries(full, r)).Some?
    requires '.' !in q && NonEmpty(a) && (full + "." + q, a) in Entries(full, r)
    ensures AnswerIn(full, r, q).Some?
  {
    var es := ScopedEntries(full, Entries(full, r)).value;
    ScopedEntriesMembers(full, Entries(full, r));
    assert (q, a) in es;
    var i :| 0 <= i < |es| && es[i] == (q, a);
  }

  /** A report's snapshot dictionary carries its id and effective time, has
      a key for every in-topic question it files, empty answers included,
      holds only those, and maps `_text` to the report's comment. */
  lemma ReportDictContents(full: string, r: CrowdReport)
    requires ReportDictOf(full, r).Some?
    ensures var d := ReportDictOf(full, r).value;
      && d.id == r.id && d.effective == r.effective
      && "_text" in d.answers && d.answers["_text"] == r.text
      && (forall q :: q in d.answers ==> '.' !in q && (full + "." + q, d.answers[q]) in Entries(full, r))
      && (forall q, a :: '.' !in q && (full + "." + q, a) in Entries(full, r) ==> q in d.answers)
  {
    var en := Entries(full, r);
    var es := ScopedEntries(full, en).value;
    ScopedTextLast(full, r);
    ScopedEntriesMembers(full, en);
    forall q, a | '.' !in q && (full + "." + q, a) in en ensures q in BuildDict(es) {
      assert (q, a) in es;
    }
  }

  /** The comment entry, added last, survives scoping as `("_text", text)`. */
  lemma ScopedTextLast(full: string, r: CrowdReport)
    requires ScopedEntries(full, Entries(full, r)).Some?
    ensures var es := ScopedEntries(full, Entries(full, r)).value;
            es != [] && es[|es| - 1] == ("_text", r.text)
  {
    var en := Entries(full, r);
    assert en[..|en| - 1] == r.answers;
    assert full + "." + "_text" == full + "._text";
    assert en[|en| - 1] == (full + "." + "_text", r.text);
    RSplitDotOfJoin(full, "_text");
  }

  /** The snapshot dictionaries before sorting are those of the fresh
      reports, one each, in store order. */
  lemma {:induction false} CollectDicts(full: string, now: int, reports: seq<CrowdReport>)
    requires Collect(full, now, reports).Some?
    ensures var ds := Collect(full, now, reports).value.dicts;
      var live := FreshReports(now, reports);
      && |ds| == |live|
      && forall k :: 0 <= k < |ds| ==> ReportDictOf(full, live[k]) == Some(ds[k])
  {
    if reports != [] {
      CollectDicts(full, now, reports[..|reports| - 1]);
    }
  }

  /** Removing a stale report changes nothing: it contributes to none of
      `latest_answers`, `answer_times` and `report_dicts`. */
  lemma StaleReportIgnored(mapId: string, topicId: string, before: seq<CrowdReport>, r: CrowdReport,
                           after: seq<CrowdReport>, now: int)
    requires !Fresh(now, r)
    ensures GetAnswersAndReports(mapId, topicId, before + [r] + after, now)
         == GetAnswersAndReports(mapId, topicId, before + after, now)
  {
    CollectSkipsStale(FullTopicId(mapId, topicId), now, before, r, after);
  }

  lemma {:induction false} CollectSkipsStale(full: string, now: int, before: seq<CrowdReport>, r: CrowdReport,
                                             after: seq<CrowdReport>)
    requires !Fresh(now, r)
    ensures Collect(full, now, before + [r] + after) == Collect(full, now, before + after)
  {
    if after == [] {
      assert before + [r] + after == before + [r] && before + after == before;
      CollectSnoc(full, now, before, r);
    } else {
      var init, last := after[..|after| - 1], after[|after| - 1];
      assert after == init + [last];
      assert before + [r] + after == (before + [r] + init) + [last];
      assert before + after == (before + init) + [last];
      CollectSkipsStale(full, now, before, r, init);
      CollectSnoc(full, now, before + [r] + init, last);
      CollectSnoc(full, now, before + init, last);
    }
  }

  /** The outer loop's last pass, unfolded. */
  lemma CollectSnoc(full: string, now: int, reports: seq<CrowdReport>, last: CrowdReport)
    ensures Collect(full, now, reports + [last]) == CollectStep(full, now, Collect(full, now, reports), last)
  {
    var s := reports + [last];
    assert s[..|s| - 1] == reports && s[|s| - 1] == last;
  }

  /** `reverse` after a stable ascending sort lists the newest first and
      puts reports with equal times in reverse store order. */
  lemma NewestFirstTiesReversed(dicts: seq<ReportDict>, k: real)
    ensures WithKey(NewestFirst(dicts), EffectiveKey, k) == Reverse(WithKey(dicts, EffectiveKey, k))
  {
    WithKeyReverse(StableSort(dicts, EffectiveKey), EffectiveKey, k);
    StableSortIsStable(dicts, EffectiveKey, k);
  }

  /** The snapshot is the start of that newest-first list. */
  lemma SnapshotIsNewestPrefix(dicts: seq<ReportDict>)
    ensures Snapshot(dicts) <= NewestFirst(dicts)
  {
  }

  /** Sorting loses no dictionary: each has a position in the newest-first
      list. */
  lemma NewestFirstPosition(dicts: seq<ReportDict>, d: ReportDict) returns (j: nat)
    requires d in dicts
    ensures j < |NewestFirst(dicts)| && NewestFirst(dicts)[j] == d
  {
    assert d in multiset(dicts);
    var nf := NewestFirst(dicts);
    assert d in multiset(nf);
    j :| 0 <= j < |nf| && nf[j] == d;
  }

  /** A dictionary cut from the snapshot is no newer than any kept one. */
  lemma SnapshotKeepsNewest(dicts: seq<ReportDict>, d: ReportDict)
    requires d in dicts && d !in Snapshot(dicts)
    ensures forall e :: e in Snapshot(dicts) ==> e.effective >= d.effective
  {
    var nf := NewestFirst(dicts);
    var s := Snapshot(dicts);
    assert s <= nf;
    var j := NewestFirstPosition(dicts, d);
    if j < |s| {
      assert false;
    }
    forall e | e in s ensures e.effective >= d.effective {
      var i :| 0 <= i < |s| && s[i] == e;
      assert nf[i] == e;
      assert i < j;
      assert EffectiveKey(nf[i]) >= EffectiveKey(nf[j]);
    }
  }

  lemma SnapshotFromDicts(full: string, ds: seq<ReportDict>, live: seq<CrowdReport>)
    requires |ds| == |live|
    requires forall k :: 0 <= k < |ds| ==> ReportDictOf(full, live[k]) == Some(ds[k])
    ensures var snap := Snapshot(ds);
      && |snap| == Min(REPORTS_PER_FEATURE, |live|)
      && (forall d :: d in snap ==> exists k :: 0 <= k < |live| && ReportDictOf(full, live[k]) == Some(d))
      && (forall k :: 0 <= k < |live| && ReportDictOf(full, live[k]).Some?
                       && ReportDictOf(full, live[k]).value !in snap
            ==> forall e :: e in snap ==> e.effective >= live[k].effective)
  {
    var snap := Snapshot(ds);
    forall d | d in snap ensures exists k :: 0 <= k < |live| && ReportDictOf(full, live[k]) == Some(d) {
      assert d in multiset(ds);
      var k :| 0 <= k < |ds| && ds[k] == d;
    }
    forall k | 0 <= k < |live| && ReportDictOf(full, live[k]).Some? && ReportDictOf(full, live[k]).value !in snap
      ensures forall e :: e in snap ==> e.effective >= live[k].effective
    {
      assert ds[k] in ds;
      assert ds[k].effective == live[k].effective;
      SnapshotKeepsNewest(ds, ds[k]);
    }
  }

  /** At the level of the whole call: the snapshot holds min(5, #fresh)
      dictionaries, each that of some fresh report, and a fresh report left
      out is no newer than any report kept. */
  lemma SnapshotOfFreshReports(mapId: string, topicId: string, reports: seq<CrowdReport>, now: int)
    requires GetAnswersAndReports(mapId, topicId, reports, now).Ok?
    ensures var snap := GetAnswersAndReports(mapId, topicId, reports, now).value.reportDicts;
      var full := FullTopicId(mapId, topicId);
      var live := FreshReports(now, reports);
      && |snap| == Min(REPORTS_PER_FEATURE, |live|)
      && (forall d :: d in snap ==> exists k :: 0 <= k < |live| && ReportDictOf(full, live[k]) == Some(d))
      && (forall k :: 0 <= k < |live| && ReportDictOf(full, live[k]).Some?
                       && ReportDictOf(full, live[k]).value !in snap
            ==> forall e :: e in snap ==> e.effective >= live[k].effective)
  {
    var full := FullTopicId(mapId, topicId);
    CollectDicts(full, now, reports);
    SnapshotFromDicts(full, Collect(full, now, reports).value.dicts, FreshReports(now, reports));
  }
}
