/** The statistics run (`trigger_summary_stats_creation`): starting from the
    latest statistics window of the versions (or from midnight of the day of
    the earliest reading), summarise consecutive windows of whole days until
    a window would start after the latest reading. */
module StatsEngine {
  import opened Wrappers
  import opened Seqs
  import opened Records
  import opened Stats
  import opened Persistence

  /** Seconds in a day: timestamps are whole seconds. */
  const DAY: int := 86400

  /** `replace(hour=0, minute=0, second=0, microsecond=0)`: the start of the
      day that contains `t`. */
  function Midnight(t: int): (m: int)
    ensures m <= t < m + DAY
    ensures m % DAY == 0
  {
    t - t % DAY
  }

  /** Where a window starts: the end of the latest window, or `initial` when
      there is none yet. */
  function NextFrom(latest: Option<StatisticsControl>, initial: int): int {
    match latest
    case None => initial
    case Some(c) => c.toDate
  }

  /** The windows `[from, from + length)` the loop visits from `from` on:
      one more for as long as its start is not after `maxT`. */
  function Windows(from: int, maxT: int, length: nat): seq<(int, int)>
    requires length > 0
    decreases maxT - from
  {
    if from > maxT then [] else [(from, from + length)] + Windows(from + length, maxT, length)
  }

  /** The windows one run visits over the store's contents: none when the
      version has no reading, otherwise from the resume point through the
      latest reading, each `durationInDays` long. */
  function RunWindows(controls: seq<LoadControl>, readings: seq<StoredReading>,
                      statisticsControls: seq<StatisticsControl>,
                      pipelineVersion: int, statsVersion: int, durationInDays: nat): seq<(int, int)>
    requires durationInDays > 0
  {
    match TimestampRange(controls, readings, pipelineVersion)
    case None => []
    case Some(range) =>
      Windows(NextFrom(LatestStatisticsControl(statisticsControls, pipelineVersion, statsVersion), Midnight(range.0)),
              range.1, durationInDays * DAY)
  }

  /** The statistics-control rows the windows write, with ids from `firstId`. */
  function StatsControlsFor(windows: seq<(int, int)>, firstId: int, pipelineVersion: int, statsVersion: int)
    : (r: seq<StatisticsControl>)
    ensures |r| == |windows|
    ensures forall k :: 0 <= k < |windows| ==>
      r[k] == StatisticsControl(firstId + k, pipelineVersion, statsVersion, windows[k].0, windows[k].1)
  {
    seq(|windows|, k requires 0 <= k < |windows| =>
      StatisticsControl(firstId + k, pipelineVersion, statsVersion, windows[k].0, windows[k].1))
  }

  /** One window's summary: `calculate_stats` of the readings
      `fetch_cleaned_readings` returns for it. */
  function WindowStats(controls: seq<LoadControl>, readings: seq<StoredReading>, pipelineVersion: int,
                       window: (int, int)): seq<TurbineStats>
  {
    CalculateStats(ReadingsIn(controls, readings, pipelineVersion, window.0, window.1))
  }

  /** `WindowStats` over a fixed store, as a function of the window. */
  function SummariseOver(controls: seq<LoadControl>, readings: seq<StoredReading>, pipelineVersion: int)
    : ((int, int)) -> seq<TurbineStats>
  {
    window => WindowStats(controls, readings, pipelineVersion, window)
  }

  /** The statistics rows the windows write: each window's summary tagged
      with the window's control id. */
  function StatsRowsFor(windows: seq<(int, int)>, firstId: int, summarise: ((int, int)) -> seq<TurbineStats>)
    : seq<StoredStatistics>
  {
    if windows == [] then []
    else
      var n := |windows|;
      StatsRowsFor(windows[..n - 1], firstId, summarise) + TagStatistics(firstId + n - 1, summarise(windows[n - 1]))
  }

  // ---------------------------------------------------------------------
  // The loop

  /** `trigger_summary_stats_creation`: the store gains exactly the windows
      of `RunWindows` and their statistics; the loads are untouched; and
      when the version has readings, the latest window afterwards ends
      after the latest reading. */
  method TriggerSummaryStatsCreation(db: DatabaseManager, pipelineVersion: int, statsVersion: int, durationInDays: nat)
    requires db.Valid()
    requires durationInDays > 0
    modifies db
    ensures db.Valid()
    ensures var windows := old(RunWindows(db.loadControls, db.cleanedReadings, db.statisticsControls,
                                          pipelineVersion, statsVersion, durationInDays));
      && db.statisticsControls
         == old(db.statisticsControls) + StatsControlsFor(windows, old(db.nextStatisticsId), pipelineVersion, statsVersion)
      && db.statistics
         == old(db.statistics)
            + StatsRowsFor(windows, old(db.nextStatisticsId),
                         SummariseOver(old(db.loadControls), old(db.cleanedReadings), pipelineVersion))
      && db.nextStatisticsId == old(db.nextStatisticsId) + |windows|
    ensures db.loadControls == old(db.loadControls) && db.cleanedReadings == old(db.cleanedReadings)
    ensures db.nextLoadId == old(db.nextLoadId)
    ensures match old(TimestampRange(db.loadControls, db.cleanedReadings, pipelineVersion))
      case None => true
      case Some(range) =>
        var latest := LatestStatisticsControl(db.statisticsControls, pipelineVersion, statsVersion);
        latest.Some? && latest.value.toDate > range.1
  {
    var range := db.FetchMinMaxCleanedReadingsTimestamp(pipelineVersion);
    if range.None? {
      return;
    }
    var minTime, maxTime := range.value.0, range.value.1;
    TimestampRangeOrdered(db.loadControls, db.cleanedReadings, pipelineVersion);
    var initialDate := Midnight(minTime);
    var length := durationInDays * DAY;
    ghost var start := NextFrom(LatestStatisticsControl(db.statisticsControls, pipelineVersion, statsVersion), initialDate);
    ghost var done: seq<(int, int)> := [];
    ghost var cur := start;
    while true
      invariant db.Valid()
      invariant NextFrom(LatestStatisticsControl(db.statisticsControls, pipelineVersion, statsVersion), initialDate) == cur
      invariant done + Windows(cur, maxTime, length) == Windows(start, maxTime, length)
      invariant db.statisticsControls
             == old(db.statisticsControls) + StatsControlsFor(done, old(db.nextStatisticsId), pipelineVersion, statsVersion)
      invariant db.statistics
             == old(db.statistics)
                + StatsRowsFor(done, old(db.nextStatisticsId),
                             SummariseOver(old(db.loadControls), old(db.cleanedReadings), pipelineVersion))
      invariant db.nextStatisticsId == old(db.nextStatisticsId) + |done|
      invariant db.loadControls == old(db.loadControls) && db.cleanedReadings == old(db.cleanedReadings)
      invariant db.nextLoadId == old(db.nextLoadId)
      invariant LatestStatisticsControl(db.statisticsControls, pipelineVersion, statsVersion).None? ==> cur <= maxTime
      decreases maxTime - cur
    {
      var statsControl := db.FetchLatestStatisticsControl(pipelineVersion, statsVersion);
      var fromDate := initialDate;
      if statsControl.Some? {
        fromDate := statsControl.value.toDate;
      }
      if fromDate > maxTime {
        WindowsEnd(done, cur, maxTime, length, Windows(start, maxTime, length));
        break;
      }
      var toDate := fromDate + length;
      assert fromDate == cur;
      WindowsAdvance(start, done, fromDate, toDate, maxTime, length);
      ghost var controls, rows, id := db.statisticsControls, db.statistics, db.nextStatisticsId;
      ghost var summarise := SummariseOver(old(db.loadControls), old(db.cleanedReadings), pipelineVersion);
      SummariseWindow(db, pipelineVersion, statsVersion, fromDate, toDate);
      StatsControlsExtend(old(db.statisticsControls), controls, db.statisticsControls, done, (fromDate, toDate),
                          old(db.nextStatisticsId), id, pipelineVersion, statsVersion);
      StatsRowsExtend(old(db.statistics), rows, db.statistics, done, (fromDate, toDate), summarise((fromDate, toDate)),
                      old(db.nextStatisticsId), id, summarise);
      done := done + [(fromDate, toDate)];
      cur := toDate;
    }
  }

  /** One pass of the loop with data to summarise: fetch the window's
      readings, summarise them, and store the summary with its window. */
  method SummariseWindow(db: DatabaseManager, pipelineVersion: int, statsVersion: int, fromDate: int, toDate: int)
    requires db.Valid()
    modifies db
    ensures db.Valid()
    ensures db.statisticsControls
         == old(db.statisticsControls) + [StatisticsControl(old(db.nextStatisticsId), pipelineVersion, statsVersion, fromDate, toDate)]
    ensures db.statistics
         == old(db.statistics)
            + TagStatistics(old(db.nextStatisticsId),
                            SummariseOver(db.loadControls, db.cleanedReadings, pipelineVersion)((fromDate, toDate)))
    ensures db.nextStatisticsId == old(db.nextStatisticsId) + 1
    ensures db.loadControls == old(db.loadControls) && db.cleanedReadings == old(db.cleanedReadings)
    ensures db.nextLoadId == old(db.nextLoadId)
    ensures LatestStatisticsControl(db.statisticsControls, pipelineVersion, statsVersion)
         == Some(StatisticsControl(old(db.nextStatisticsId), pipelineVersion, statsVersion, fromDate, toDate))
  {
    var df := db.FetchCleanedReadings(pipelineVersion, fromDate, toDate);
    var stats := CalculateStats(df);
    db.StoreStats(pipelineVersion, statsVersion, fromDate, toDate, stats);
  }

  /** The earliest timestamp is not after the latest. */
  lemma TimestampRangeOrdered(controls: seq<LoadControl>, readings: seq<StoredReading>, pipelineVersion: int)
    ensures var r := TimestampRange(controls, readings, pipelineVersion);
      r.Some? ==> r.value.0 <= r.value.1
  {
    TimestampRangeCorrect(controls, readings, pipelineVersion);
  }

  /** A start after `maxT` leaves no window to visit. */
  lemma WindowsEnd(done: seq<(int, int)>, cur: int, maxT: int, length: nat, all: seq<(int, int)>)
    requires length > 0 && cur > maxT
    requires done + Windows(cur, maxT, length) == all
    ensures done == all
  {
    assert done + [] == done;
  }

  /** One pass of the loop peels one window off the schedule. */
  lemma WindowsAdvance(start: int, done: seq<(int, int)>, cur: int, next: int, maxT: int, length: nat)
    requires length > 0 && cur <= maxT && next == cur + length
    requires done + Windows(cur, maxT, length) == Windows(start, maxT, length)
    ensures (done + [(cur, next)]) + Windows(next, maxT, length) == Windows(start, maxT, length)
  {
    AppendAssociates(done, [(cur, cur + length)], Windows(cur + length, maxT, length));
  }

  /** One more pass appends one statistics control to what the earlier passes wrote. */
  lemma StatsControlsExtend(controls0: seq<StatisticsControl>, controls: seq<StatisticsControl>,
                            controls': seq<StatisticsControl>, done: seq<(int, int)>, window: (int, int),
                            firstId: int, id: int, pipelineVersion: int, statsVersion: int)
    requires controls == controls0 + StatsControlsFor(done, firstId, pipelineVersion, statsVersion)
    requires id == firstId + |done|
    requires controls' == controls + [StatisticsControl(id, pipelineVersion, statsVersion, window.0, window.1)]
    ensures controls' == controls0 + StatsControlsFor(done + [window], firstId, pipelineVersion, statsVersion)
  {
    var before := StatsControlsFor(done, firstId, pipelineVersion, statsVersion);
    var after := StatsControlsFor(done + [window], firstId, pipelineVersion, statsVersion);
    var control := StatisticsControl(id, pipelineVersion, statsVersion, window.0, window.1);
    assert after == before + [control];
    AppendAssociates(controls0, before, [control]);
  }

  /** One more pass appends one window's tagged statistics to what the
      earlier passes wrote. */
  lemma StatsRowsExtend(rows0: seq<StoredStatistics>, rows: seq<StoredStatistics>, rows': seq<StoredStatistics>,
                        done: seq<(int, int)>, window: (int, int), stats: seq<TurbineStats>,
                        firstId: int, id: int, summarise: ((int, int)) -> seq<TurbineStats>)
    requires rows == rows0 + StatsRowsFor(done, firstId, summarise)
    requires stats == summarise(window)
    requires id == firstId + |done|
    requires rows' == rows + TagStatistics(id, stats)
    ensures rows' == rows0 + StatsRowsFor(done + [window], firstId, summarise)
  {
    var all := done + [window];
    assert all[..|all| - 1] == done;
    AppendAssociates(rows0, StatsRowsFor(done, firstId, summarise), TagStatistics(id, stats));
  }

  // ---------------------------------------------------------------------
  // Properties of the windows

  /** The loop visits a window exactly when its first start is not after
      the latest reading. */
  lemma WindowsEmptyIff(from: int, maxT: int, length: nat)
    requires length > 0
    ensures Windows(from, maxT, length) == [] <==> from > maxT
  {
  }

  /** The windows start at `from`, each is `length` long, each starts where
      the previous one ends, each starts no later than `maxT`, and the last
      one ends after `maxT`. */
  lemma {:induction false} WindowsShape(from: int, maxT: int, length: nat)
    requires length > 0
    ensures var ws := Windows(from, maxT, length);
      && (|ws| > 0 ==> ws[0].0 == from && ws[|ws| - 1].1 > maxT)
      && (forall k :: 0 <= k < |ws| ==> ws[k].1 == ws[k].0 + length && ws[k].0 <= maxT)
      && (forall k :: 0 < k < |ws| ==> ws[k].0 == ws[k - 1].1)
    decreases maxT - from
  {
    if from <= maxT {
      var ws := Windows(from, maxT, length);
      var rest := Windows(from + length, maxT, length);
      WindowsShape(from + length, maxT, length);
      assert ws == [(from, from + length)] + rest;
      forall k | 0 < k < |ws| ensures ws[k].0 == ws[k - 1].1 {
        assert ws[k] == rest[k - 1];
        if k > 1 {
          assert ws[k - 1] == rest[k - 2];
        }
      }
    }
  }

  /** Windows never overlap: an earlier one ends no later than a later one starts. */
  lemma {:induction false} WindowsDisjoint(from: int, maxT: int, length: nat)
    requires length > 0
    ensures var ws := Windows(from, maxT, length);
      forall k, l :: 0 <= k < l < |ws| ==> ws[k].1 <= ws[l].0
    decreases maxT - from
  {
    if from <= maxT {
      var ws := Windows(from, maxT, length);
      var rest := Windows(from + length, maxT, length);
      WindowsDisjoint(from + length, maxT, length);
      WindowsShape(from + length, maxT, length);
      assert ws == [(from, from + length)] + rest;
      forall k, l | 0 <= k < l < |ws| ensures ws[k].1 <= ws[l].0 {
        assert ws[l] == rest[l - 1];
        if k > 0 {
          assert ws[k] == rest[k - 1];
        } else if l > 1 {
          WindowsStartAtLeast(from + length, maxT, length, l - 1);
        }
      }
    }
  }

  /** Every window starts at or after the first start. */
  lemma {:induction false} WindowsStartAtLeast(from: int, maxT: int, length: nat, k: nat)
    requires length > 0
    requires k < |Windows(from, maxT, length)|
    ensures Windows(from, maxT, length)[k].0 >= from
    decreases maxT - from
  {
    var ws := Windows(from, maxT, length);
    assert ws == [(from, from + length)] + Windows(from + length, maxT, length);
    if k > 0 {
      WindowsStartAtLeast(from + length, maxT, length, k - 1);
    }
  }

  /** `t` lies in the half-open window `w`. */
  predicate InWindow(w: (int, int), t: int) {
    w.0 <= t < w.1
  }

  /** Every second from `from` through `maxT` lies in some window. */
  lemma {:induction false} WindowsCover(from: int, maxT: int, length: nat, t: int)
    requires length > 0
    requires from <= t <= maxT
    ensures exists k :: 0 <= k < |Windows(from, maxT, length)| && InWindow(Windows(from, maxT, length)[k], t)
    decreases maxT - from
  {
    var ws := Windows(from, maxT, length);
    var rest := Windows(from + length, maxT, length);
    assert ws == [(from, from + length)] + rest;
    if t < from + length {
      assert ws[0] == (from, from + length);
      assert InWindow(ws[0], t);
    } else {
      WindowsCover(from + length, maxT, length, t);
      var k :| 0 <= k < |rest| && InWindow(rest[k], t);
      assert ws[k + 1] == rest[k];
    }
  }

  /** The window controls a run appends: consecutive ids from `firstId`,
      all for the run's versions, each `length` long and starting where the
      previous one ends, the first at the resume point, every one starting
      no later than `maxT` and the last ending after it. */
  lemma StatsControlsForWindows(from: int, maxT: int, length: nat, firstId: int, pipelineVersion: int, statsVersion: int)
    requires length > 0
    ensures var cs := StatsControlsFor(Windows(from, maxT, length), firstId, pipelineVersion, statsVersion);
      && (|cs| > 0 <==> from <= maxT)
      && (|cs| > 0 ==> cs[0].fromDate == from && cs[|cs| - 1].toDate > maxT)
      && (forall k :: 0 <= k < |cs| ==>
            && cs[k].id == firstId + k && cs[k].pipelineVersion == pipelineVersion && cs[k].statsVersion == statsVersion
            && cs[k].toDate == cs[k].fromDate + length && cs[k].fromDate <= maxT)
      && (forall k :: 0 < k < |cs| ==> cs[k].fromDate == cs[k - 1].toDate)
  {
    WindowsShape(from, maxT, length);
    WindowsEmptyIff(from, maxT, length);
  }

  /** On a first run (no earlier window), every reading of the version falls
      in exactly one of the windows visited, so each is summarised once. */
  lemma FirstRunSummarisesEachReadingOnce(controls: seq<LoadControl>, readings: seq<StoredReading>,
                                          statisticsControls: seq<StatisticsControl>,
                                          pipelineVersion: int, statsVersion: int, durationInDays: nat, i: int)
    requires durationInDays > 0
    requires LatestStatisticsControl(statisticsControls, pipelineVersion, statsVersion).None?
    requires 0 <= i < |readings| && BelongsTo(controls, readings[i].loadId, pipelineVersion)
    ensures var ws := RunWindows(controls, readings, statisticsControls, pipelineVersion, statsVersion, durationInDays);
      var t := readings[i].reading.timestamp;
      && (exists k :: 0 <= k < |ws| && InWindow(ws[k], t))
      && (forall k, l :: 0 <= k < |ws| && 0 <= l < |ws| && InWindow(ws[k], t) && InWindow(ws[l], t) ==> k == l)
  {
    TimestampRangeCorrect(controls, readings, pipelineVersion);
    var range := TimestampRange(controls, readings, pipelineVersion).value;
    var t := readings[i].reading.timestamp;
    var length := durationInDays * DAY;
    var from := Midnight(range.0);
    assert from <= range.0 <= t <= range.1;
    var ws := Windows(from, range.1, length);
    assert ws == RunWindows(controls, readings, statisticsControls, pipelineVersion, statsVersion, durationInDays);
    WindowsCover(from, range.1, length, t);
    WindowsDisjoint(from, range.1, length);
  }

  /** Once a run has ended, a rerun over the same readings visits no window:
      the latest window already ends after the latest reading. */
  lemma RerunVisitsNothing(controls: seq<LoadControl>, readings: seq<StoredReading>,
                           statisticsControls: seq<StatisticsControl>,
                           pipelineVersion: int, statsVersion: int, durationInDays: nat)
    requires durationInDays > 0
    requires match TimestampRange(controls, readings, pipelineVersion)
      case None => true
      case Some(range) =>
        var latest := LatestStatisticsControl(statisticsControls, pipelineVersion, statsVersion);
        latest.Some? && latest.value.toDate > range.1
    ensures RunWindows(controls, readings, statisticsControls, pipelineVersion, statsVersion, durationInDays) == []
  {
  }
}
