/** The store behind `DatabaseManager`: four append-only tables (load
    controls, cleaned readings, statistics controls, statistics) with
    auto-incremented ids, and the queries the pipeline runs against them. */
module Persistence {
  import opened Wrappers
  import opened Seqs
  import opened Records

  // ---------------------------------------------------------------------
  // "The latest": the highest id under an equality filter

  /** `filter_by(...).order_by(desc(id)).limit(1).first()`: a record that
      satisfies `keep` with the greatest `id`, or `None` when no record does.
      Among equal ids the later record wins (ids are unique in a valid store,
      so this never decides anything there). */
  function Latest<T>(cs: seq<T>, id: T -> int, keep: T -> bool): (r: Option<T>)
    ensures r.None? <==> forall k :: 0 <= k < |cs| ==> !keep(cs[k])
    ensures r.Some? ==> (exists k :: 0 <= k < |cs| && cs[k] == r.value) && keep(r.value)
    ensures r.Some? ==> forall k :: 0 <= k < |cs| && keep(cs[k]) ==> id(cs[k]) <= id(r.value)
  {
    if cs == [] then None
    else
      var init := cs[..|cs| - 1];
      var last := cs[|cs| - 1];
      var rest := Latest(init, id, keep);
      assert forall k :: 0 <= k < |init| ==> cs[k] == init[k];
      if !keep(last) then rest
      else if rest.Some? && id(last) < id(rest.value) then rest
      else Some(last)
  }

  /** A record that does not satisfy the filter, wherever it stands, never
      affects the latest one. */
  lemma {:induction false} LatestIgnoresOthers<T>(a: seq<T>, x: T, b: seq<T>, id: T -> int, keep: T -> bool)
    requires !keep(x)
    ensures Latest(a + [x] + b, id, keep) == Latest(a + b, id, keep)
    decreases |b|
  {
    if b == [] {
      assert a + [x] + b == a + [x] && (a + [x])[..|a|] == a;
      assert a + b == a;
    } else {
      var b' := b[..|b| - 1];
      LatestIgnoresOthers(a, x, b', id, keep);
      assert (a + [x] + b)[..|a + [x] + b| - 1] == a + [x] + b';
      assert (a + b)[..|a + b| - 1] == a + b';
      assert (a + [x] + b)[|a + [x] + b| - 1] == b[|b| - 1];
      assert (a + b)[|a + b| - 1] == b[|b| - 1];
    }
  }

  /** A record appended with an id above every existing one, and satisfying
      the filter, is the latest. */
  lemma LatestOfAppended<T>(cs: seq<T>, x: T, id: T -> int, keep: T -> bool)
    requires keep(x)
    requires forall k :: 0 <= k < |cs| ==> id(cs[k]) < id(x)
    ensures Latest(cs + [x], id, keep) == Some(x)
  {
    assert (cs + [x])[..|cs|] == cs;
    var rest := Latest(cs, id, keep);
    if rest.Some? {
      var k :| 0 <= k < |cs| && cs[k] == rest.value;
    }
  }

  // ---------------------------------------------------------------------
  // The two control tables

  function LoadControlId(c: LoadControl): int { c.id }

  function StatisticsControlId(c: StatisticsControl): int { c.id }

  /** The filter of `fetch_latest_load_control`. */
  function LoadKey(inputFileName: string, pipelineVersion: int): LoadControl -> bool {
    (c: LoadControl) => c.inputFileName == inputFileName && c.pipelineVersion == pipelineVersion
  }

  /** The filter of `fetch_latest_statistics_control`. */
  function StatisticsKey(pipelineVersion: int, statsVersion: int): StatisticsControl -> bool {
    (c: StatisticsControl) => c.pipelineVersion == pipelineVersion && c.statsVersion == statsVersion
  }

  function LatestLoadControl(cs: seq<LoadControl>, inputFileName: string, pipelineVersion: int): Option<LoadControl> {
    Latest(cs, LoadControlId, LoadKey(inputFileName, pipelineVersion))
  }

  function LatestStatisticsControl(cs: seq<StatisticsControl>, pipelineVersion: int, statsVersion: int): Option<StatisticsControl> {
    Latest(cs, StatisticsControlId, StatisticsKey(pipelineVersion, statsVersion))
  }

  /** What `fetch_latest_load_control` promises: `None` exactly when no
      record has that file and version, otherwise the one of them with the
      highest id. */
  lemma LatestLoadControlCorrect(cs: seq<LoadControl>, inputFileName: string, pipelineVersion: int)
    ensures var r := LatestLoadControl(cs, inputFileName, pipelineVersion);
      && (r.None? <==> forall k :: 0 <= k < |cs| ==>
            !(cs[k].inputFileName == inputFileName && cs[k].pipelineVersion == pipelineVersion))
      && (r.Some? ==>
            && (exists k :: 0 <= k < |cs| && cs[k] == r.value)
            && r.value.inputFileName == inputFileName && r.value.pipelineVersion == pipelineVersion
            && forall k ::
                 (0 <= k < |cs| && cs[k].inputFileName == inputFileName && cs[k].pipelineVersion == pipelineVersion)
                 ==> cs[k].id <= r.value.id)
  {
    var keep := LoadKey(inputFileName, pipelineVersion);
    assert forall c :: keep(c) <==> c.inputFileName == inputFileName && c.pipelineVersion == pipelineVersion;
  }

  /** What `fetch_latest_statistics_control` promises, in the same terms. */
  lemma LatestStatisticsControlCorrect(cs: seq<StatisticsControl>, pipelineVersion: int, statsVersion: int)
    ensures var r := LatestStatisticsControl(cs, pipelineVersion, statsVersion);
      && (r.None? <==> forall k :: 0 <= k < |cs| ==>
            !(cs[k].pipelineVersion == pipelineVersion && cs[k].statsVersion == statsVersion))
      && (r.Some? ==>
            && (exists k :: 0 <= k < |cs| && cs[k] == r.value)
            && r.value.pipelineVersion == pipelineVersion && r.value.statsVersion == statsVersion
            && forall k ::
                 (0 <= k < |cs| && cs[k].pipelineVersion == pipelineVersion && cs[k].statsVersion == statsVersion)
                 ==> cs[k].id <= r.value.id)
  {
    var keep := StatisticsKey(pipelineVersion, statsVersion);
    assert forall c :: keep(c) <==> c.pipelineVersion == pipelineVersion && c.statsVersion == statsVersion;
  }

  /** Records for another file or version never change the latest checkpoint. */
  lemma OtherLoadControlIgnored(a: seq<LoadControl>, x: LoadControl, b: seq<LoadControl>,
                                inputFileName: string, pipelineVersion: int)
    requires x.inputFileName != inputFileName || x.pipelineVersion != pipelineVersion
    ensures LatestLoadControl(a + [x] + b, inputFileName, pipelineVersion)
         == LatestLoadControl(a + b, inputFileName, pipelineVersion)
  {
    LatestIgnoresOthers(a, x, b, LoadControlId, LoadKey(inputFileName, pipelineVersion));
  }

  /** Records for another pipeline or statistics version never change the latest window. */
  lemma OtherStatisticsControlIgnored(a: seq<StatisticsControl>, x: StatisticsControl, b: seq<StatisticsControl>,
                                      pipelineVersion: int, statsVersion: int)
    requires x.pipelineVersion != pipelineVersion || x.statsVersion != statsVersion
    ensures LatestStatisticsControl(a + [x] + b, pipelineVersion, statsVersion)
         == LatestStatisticsControl(a + b, pipelineVersion, statsVersion)
  {
    LatestIgnoresOthers(a, x, b, StatisticsControlId, StatisticsKey(pipelineVersion, statsVersion));
  }

  // ---------------------------------------------------------------------
  // The reading queries

  /** The join `cleaned_reading.load_id = load_control.id` restricted to one
      pipeline version. */
  predicate BelongsTo(controls: seq<LoadControl>, loadId: int, pipelineVersion: int) {
    exists k :: 0 <= k < |controls| && controls[k].id == loadId && controls[k].pipelineVersion == pipelineVersion
  }

  /** The `WHERE` clause of `fetch_cleaned_readings`: a half-open interval. */
  predicate Selected(controls: seq<LoadControl>, r: StoredReading, pipelineVersion: int, fromDate: int, toDate: int) {
    fromDate <= r.reading.timestamp < toDate && BelongsTo(controls, r.loadId, pipelineVersion)
  }

  /** The rows `fetch_cleaned_readings` returns, in table order. */
  function ReadingsIn(controls: seq<LoadControl>, readings: seq<StoredReading>,
                      pipelineVersion: int, fromDate: int, toDate: int): (r: seq<CleanedReading>)
    ensures |r| <= |readings|
  {
    if readings == [] then []
    else
      (if Selected(controls, readings[0], pipelineVersion, fromDate, toDate) then [readings[0].reading] else [])
      + ReadingsIn(controls, readings[1..], pipelineVersion, fromDate, toDate)
  }

  /** Exactly the readings of the version inside `[fromDate, toDate)` are returned. */
  lemma {:induction false} ReadingsInExact(controls: seq<LoadControl>, readings: seq<StoredReading>,
                                           pipelineVersion: int, fromDate: int, toDate: int, x: CleanedReading)
    ensures x in ReadingsIn(controls, readings, pipelineVersion, fromDate, toDate)
        <==> exists i :: 0 <= i < |readings| && readings[i].reading == x
               && Selected(controls, readings[i], pipelineVersion, fromDate, toDate)
  {
    if readings != [] {
      ReadingsInExact(controls, readings[1..], pipelineVersion, fromDate, toDate, x);
      if exists i :: 0 <= i < |readings[1..]| && readings[1..][i].reading == x
           && Selected(controls, readings[1..][i], pipelineVersion, fromDate, toDate) {
        var i :| 0 <= i < |readings[1..]| && readings[1..][i].reading == x
           && Selected(controls, readings[1..][i], pipelineVersion, fromDate, toDate);
        assert readings[i + 1] == readings[1..][i];
      }
      if exists i :: 0 <= i < |readings| && readings[i].reading == x
           && Selected(controls, readings[i], pipelineVersion, fromDate, toDate) {
        var i :| 0 <= i < |readings| && readings[i].reading == x
           && Selected(controls, readings[i], pipelineVersion, fromDate, toDate);
        if i > 0 {
          assert readings[1..][i - 1] == readings[i];
        }
      }
    }
  }

  /** The timestamps over which `MIN` and `MAX` range. */
  function VersionTimestamps(controls: seq<LoadControl>, readings: seq<StoredReading>, pipelineVersion: int): (ts: seq<int>)
    ensures |ts| <= |readings|
  {
    if readings == [] then []
    else
      (if BelongsTo(controls, readings[0].loadId, pipelineVersion) then [readings[0].reading.timestamp] else [])
      + VersionTimestamps(controls, readings[1..], pipelineVersion)
  }

  lemma {:induction false} VersionTimestampsExact(controls: seq<LoadControl>, readings: seq<StoredReading>,
                                                  pipelineVersion: int, t: int)
    ensures t in VersionTimestamps(controls, readings, pipelineVersion)
        <==> exists i :: 0 <= i < |readings| && readings[i].reading.timestamp == t
               && BelongsTo(controls, readings[i].loadId, pipelineVersion)
  {
    if readings != [] {
      VersionTimestampsExact(controls, readings[1..], pipelineVersion, t);
      if exists i :: 0 <= i < |readings[1..]| && readings[1..][i].reading.timestamp == t
           && BelongsTo(controls, readings[1..][i].loadId, pipelineVersion) {
        var i :| 0 <= i < |readings[1..]| && readings[1..][i].reading.timestamp == t
           && BelongsTo(controls, readings[1..][i].loadId, pipelineVersion);
        assert readings[i + 1] == readings[1..][i];
      }
      if exists i :: 0 <= i < |readings| && readings[i].reading.timestamp == t
           && BelongsTo(controls, readings[i].loadId, pipelineVersion) {
        var i :| 0 <= i < |readings| && readings[i].reading.timestamp == t
           && BelongsTo(controls, readings[i].loadId, pipelineVersion);
        if i > 0 {
          assert readings[1..][i - 1] == readings[i];
        }
      }
    }
  }

  function Least(ts: seq<int>): (m: int)
    requires |ts| > 0
    ensures m in ts && forall i :: 0 <= i < |ts| ==> m <= ts[i]
  {
    if |ts| == 1 then ts[0]
    else
      var m := Least(ts[1..]);
      assert forall i :: 1 <= i < |ts| ==> ts[i] == ts[1..][i - 1];
      if ts[0] <= m then ts[0] else m
  }

  function Greatest(ts: seq<int>): (m: int)
    requires |ts| > 0
    ensures m in ts && forall i :: 0 <= i < |ts| ==> ts[i] <= m
  {
    if |ts| == 1 then ts[0]
    else
      var m := Greatest(ts[1..]);
      assert forall i :: 1 <= i < |ts| ==> ts[i] == ts[1..][i - 1];
      if m <= ts[0] then ts[0] else m
  }

  /** `SELECT MIN(timestamp), MAX(timestamp)` over one version's readings;
      `None` where the query yields NULLs. */
  function TimestampRange(controls: seq<LoadControl>, readings: seq<StoredReading>, pipelineVersion: int): Option<(int, int)> {
    var ts := VersionTimestamps(controls, readings, pipelineVersion);
    if ts == [] then None else Some((Least(ts), Greatest(ts)))
  }

  /** The range is absent exactly when the version has no reading; otherwise
      both ends are timestamps of its readings and every one lies between them. */
  lemma TimestampRangeCorrect(controls: seq<LoadControl>, readings: seq<StoredReading>, pipelineVersion: int)
    ensures var r := TimestampRange(controls, readings, pipelineVersion);
      && (r.None? <==> forall i :: 0 <= i < |readings| ==> !BelongsTo(controls, readings[i].loadId, pipelineVersion))
      && (r.Some? ==>
            && (exists i :: 0 <= i < |readings| && BelongsTo(controls, readings[i].loadId, pipelineVersion)
                  && readings[i].reading.timestamp == r.value.0)
            && (exists i :: 0 <= i < |readings| && BelongsTo(controls, readings[i].loadId, pipelineVersion)
                  && readings[i].reading.timestamp == r.value.1)
            && forall i :: 0 <= i < |readings| && BelongsTo(controls, readings[i].loadId, pipelineVersion) ==>
                 r.value.0 <= readings[i].reading.timestamp <= r.value.1)
  {
    var ts := VersionTimestamps(controls, readings, pipelineVersion);
    forall i | 0 <= i < |readings| && BelongsTo(controls, readings[i].loadId, pipelineVersion)
      ensures readings[i].reading.timestamp in ts
    {
      VersionTimestampsExact(controls, readings, pipelineVersion, readings[i].reading.timestamp);
    }
    if ts != [] {
      VersionTimestampsExact(controls, readings, pipelineVersion, Least(ts));
      VersionTimestampsExact(controls, readings, pipelineVersion, Greatest(ts));
      forall i | 0 <= i < |readings| && BelongsTo(controls, readings[i].loadId, pipelineVersion)
        ensures Least(ts) <= readings[i].reading.timestamp <= Greatest(ts)
      {
        var t := readings[i].reading.timestamp;
        var j :| 0 <= j < |ts| && ts[j] == t;
      }
    }
  }

  // ---------------------------------------------------------------------
  // Tagging rows with the id of the control record written before them

  function TagReadings(loadId: int, rows: seq<CleanedReading>): (r: seq<StoredReading>)
    ensures |r| == |rows|
    ensures forall i :: 0 <= i < |rows| ==> r[i] == StoredReading(loadId, rows[i])
  {
    seq(|rows|, i requires 0 <= i < |rows| => StoredReading(loadId, rows[i]))
  }

  function TagStatistics(controlId: int, stats: seq<TurbineStats>): (r: seq<StoredStatistics>)
    ensures |r| == |stats|
    ensures forall i :: 0 <= i < |stats| ==> r[i] == StoredStatistics(controlId, stats[i])
  {
    seq(|stats|, i requires 0 <= i < |stats| => StoredStatistics(controlId, stats[i]))
  }

  /** The values of the rows of `s` whose tag is `id`, in table order: the
      rows a `WHERE load_id = :id` (or `statistics_control_id = :id`) selects. */
  function ValuesTagged<T, U>(s: seq<T>, tag: T -> int, value: T -> U, id: int): (r: seq<U>)
    ensures |r| <= |s|
  {
    if s == [] then []
    else (if tag(s[0]) == id then [value(s[0])] else []) + ValuesTagged(s[1..], tag, value, id)
  }

  lemma {:induction false} ValuesTaggedAppend<T, U>(a: seq<T>, b: seq<T>, tag: T -> int, value: T -> U, id: int)
    ensures ValuesTagged(a + b, tag, value, id) == ValuesTagged(a, tag, value, id) + ValuesTagged(b, tag, value, id)
  {
    if a == [] {
      assert a + b == b;
    } else {
      var head := if tag(a[0]) == id then [value(a[0])] else [];
      assert (a + b)[0] == a[0];
      assert (a + b)[1..] == a[1..] + b;
      ValuesTaggedAppend(a[1..], b, tag, value, id);
      assert ValuesTagged(a + b, tag, value, id) == head + ValuesTagged(a[1..] + b, tag, value, id);
      AppendAssociates(head, ValuesTagged(a[1..], tag, value, id), ValuesTagged(b, tag, value, id));
    }
  }

  /** No row carries the tag: nothing is selected. */
  lemma {:induction false} ValuesTaggedAbsent<T, U>(s: seq<T>, tag: T -> int, value: T -> U, id: int)
    requires forall i :: 0 <= i < |s| ==> tag(s[i]) != id
    ensures ValuesTagged(s, tag, value, id) == []
  {
    if s != [] {
      assert forall i :: 0 <= i < |s[1..]| ==> s[1..][i] == s[i + 1];
      ValuesTaggedAbsent(s[1..], tag, value, id);
    }
  }

  /** Every row carries the tag: the values are selected in order. */
  lemma {:induction false} ValuesTaggedUniform<T, U>(s: seq<T>, tag: T -> int, value: T -> U, id: int, vs: seq<U>)
    requires |s| == |vs| && forall i :: 0 <= i < |s| ==> tag(s[i]) == id && value(s[i]) == vs[i]
    ensures ValuesTagged(s, tag, value, id) == vs
  {
    if s != [] {
      assert forall i :: 0 <= i < |s[1..]| ==> s[1..][i] == s[i + 1] && vs[1..][i] == vs[i + 1];
      ValuesTaggedUniform(s[1..], tag, value, id, vs[1..]);
      assert vs == [vs[0]] + vs[1..];
    }
  }

  function LoadOf(r: StoredReading): int { r.loadId }

  function ReadingOf(r: StoredReading): CleanedReading { r.reading }

  function WindowOf(r: StoredStatistics): int { r.statisticsControlId }

  function StatsOf(r: StoredStatistics): TurbineStats { r.stats }

  /** The id column of a control table. */
  function Ids<T>(cs: seq<T>, id: T -> int): (ids: seq<int>)
    ensures |ids| == |cs| && forall k :: 0 <= k < |cs| ==> ids[k] == id(cs[k])
  {
    seq(|cs|, k requires 0 <= k < |cs| => id(cs[k]))
  }

  /** Ids handed out by an auto-increment counter that now stands at `next`. */
  ghost predicate IssuedBelow(ids: seq<int>, next: int) {
    && Increasing(ids)
    && (forall k :: 0 <= k < |ids| ==> 1 <= ids[k] < next)
  }

  /** An id issued next stays above every earlier one. */
  lemma IssuedBelowAppend(ids: seq<int>, next: int)
    requires IssuedBelow(ids, next) && 1 <= next
    ensures IssuedBelow(ids + [next], next + 1)
  {
  }

  /** The load tables of a valid store: ids issued below the counter, and
      every reading refers to an existing load control. */
  ghost predicate LoadsConsistent(controls: seq<LoadControl>, readings: seq<StoredReading>, next: int) {
    && 1 <= next
    && IssuedBelow(Ids(controls, LoadControlId), next)
    && (forall i :: 0 <= i < |readings| ==> readings[i].loadId in Ids(controls, LoadControlId))
  }

  /** The statistics tables of a valid store, likewise. */
  ghost predicate StatisticsConsistent(controls: seq<StatisticsControl>, stats: seq<StoredStatistics>, next: int) {
    && 1 <= next
    && IssuedBelow(Ids(controls, StatisticsControlId), next)
    && (forall i :: 0 <= i < |stats| ==> stats[i].statisticsControlId in Ids(controls, StatisticsControlId))
  }

  /** A load control with the counter's id keeps the load tables consistent
      and has an id above every earlier one. */
  lemma LoadControlAppended(controls: seq<LoadControl>, readings: seq<StoredReading>, next: int, c: LoadControl)
    requires LoadsConsistent(controls, readings, next) && c.id == next
    ensures LoadsConsistent(controls + [c], readings, next + 1)
    ensures forall k :: 0 <= k < |controls| ==> LoadControlId(controls[k]) < LoadControlId(c)
  {
    IssuedBelowAppend(Ids(controls, LoadControlId), next);
    assert Ids(controls + [c], LoadControlId) == Ids(controls, LoadControlId) + [next];
    forall i | 0 <= i < |readings| ensures readings[i].loadId in Ids(controls + [c], LoadControlId) {
      var k :| 0 <= k < |controls| && Ids(controls, LoadControlId)[k] == readings[i].loadId;
      assert Ids(controls + [c], LoadControlId)[k] == readings[i].loadId;
    }
  }

  /** Readings tagged with the id of the last load control keep the load
      tables consistent. */
  lemma ReadingsAppended(controls: seq<LoadControl>, readings: seq<StoredReading>, next: int, rows: seq<CleanedReading>)
    requires LoadsConsistent(controls, readings, next) && |controls| > 0
    ensures LoadsConsistent(controls, readings + TagReadings(controls[|controls| - 1].id, rows), next)
  {
    var id := controls[|controls| - 1].id;
    assert Ids(controls, LoadControlId)[|controls| - 1] == id;
  }

  /** A statistics control with the counter's id, and statistics tagged with
      it, keep the statistics tables consistent; its id is above every
      earlier one. */
  lemma StatisticsAppended(controls: seq<StatisticsControl>, stats: seq<StoredStatistics>, next: int,
                           c: StatisticsControl, rows: seq<TurbineStats>)
    requires StatisticsConsistent(controls, stats, next) && c.id == next
    ensures StatisticsConsistent(controls + [c], stats + TagStatistics(next, rows), next + 1)
    ensures forall k :: 0 <= k < |controls| ==> StatisticsControlId(controls[k]) < StatisticsControlId(c)
  {
    IssuedBelowAppend(Ids(controls, StatisticsControlId), next);
    var ids := Ids(controls + [c], StatisticsControlId);
    assert ids == Ids(controls, StatisticsControlId) + [next];
    var all := stats + TagStatistics(next, rows);
    forall i | 0 <= i < |all| ensures all[i].statisticsControlId in ids {
      if i < |stats| {
        var k :| 0 <= k < |controls| && Ids(controls, StatisticsControlId)[k] == stats[i].statisticsControlId;
        assert ids[k] == all[i].statisticsControlId;
      } else {
        assert ids[|controls|] == all[i].statisticsControlId;
      }
    }
  }

  /** Readings stored under a fresh load id are, read back by that id,
      exactly the cleaned rows: no earlier reading carries it. */
  lemma LoadedReadingsReadBack(controls: seq<LoadControl>, readings: seq<StoredReading>, next: int,
                               rows: seq<CleanedReading>)
    requires LoadsConsistent(controls, readings, next)
    ensures ValuesTagged(readings + TagReadings(next, rows), LoadOf, ReadingOf, next) == rows
  {
    forall i | 0 <= i < |readings| ensures LoadOf(readings[i]) != next {
      var k :| 0 <= k < |controls| && Ids(controls, LoadControlId)[k] == readings[i].loadId;
    }
    ValuesTaggedAbsent(readings, LoadOf, ReadingOf, next);
    ValuesTaggedUniform(TagReadings(next, rows), LoadOf, ReadingOf, next, rows);
    ValuesTaggedAppend(readings, TagReadings(next, rows), LoadOf, ReadingOf, next);
  }

  /** Statistics stored under a fresh window id are, read back by that id,
      exactly the summary rows. */
  lemma StoredStatisticsReadBack(controls: seq<StatisticsControl>, stats: seq<StoredStatistics>, next: int,
                                 rows: seq<TurbineStats>)
    requires StatisticsConsistent(controls, stats, next)
    ensures ValuesTagged(stats + TagStatistics(next, rows), WindowOf, StatsOf, next) == rows
  {
    forall i | 0 <= i < |stats| ensures WindowOf(stats[i]) != next {
      var k :| 0 <= k < |controls| && Ids(controls, StatisticsControlId)[k] == stats[i].statisticsControlId;
    }
    ValuesTaggedAbsent(stats, WindowOf, StatsOf, next);
    ValuesTaggedUniform(TagStatistics(next, rows), WindowOf, StatsOf, next, rows);
    ValuesTaggedAppend(stats, TagStatistics(next, rows), WindowOf, StatsOf, next);
  }

  // ---------------------------------------------------------------------
  // The store

  class DatabaseManager {
    var loadControls: seq<LoadControl>
    var cleanedReadings: seq<StoredReading>
    var statisticsControls: seq<StatisticsControl>
    var statistics: seq<StoredStatistics>
    /** The id the next `load_control` row receives. */
    var nextLoadId: int
    /** The id the next `statistics_control` row receives. */
    var nextStatisticsId: int

    /** Primary keys are issued in increasing order, and every reading and
        statistics row refers to a control record that exists. */
    ghost predicate Valid()
      reads this
    {
      && LoadsConsistent(loadControls, cleanedReadings, nextLoadId)
      && StatisticsConsistent(statisticsControls, statistics, nextStatisticsId)
    }

    /** An empty database. */
    constructor ()
      ensures Valid()
      ensures loadControls == [] && cleanedReadings == [] && statisticsControls == [] && statistics == []
      ensures nextLoadId == 1 && nextStatisticsId == 1
    {
      loadControls := [];
      cleanedReadings := [];
      statisticsControls := [];
      statistics := [];
      nextLoadId := 1;
      nextStatisticsId := 1;
    }

    /** `insert_load_control`: one new checkpoint with the next id, which is
        then the latest for its file and version; nothing else changes. */
    method InsertLoadControl(pipelineVersion: int, inputFileName: string, lastLoadedLineNumber: int)
      requires Valid()
      modifies this
      ensures Valid()
      ensures loadControls
           == old(loadControls) + [LoadControl(old(nextLoadId), pipelineVersion, inputFileName, lastLoadedLineNumber)]
      ensures nextLoadId == old(nextLoadId) + 1
      ensures cleanedReadings == old(cleanedReadings)
      ensures statisticsControls == old(statisticsControls) && statistics == old(statistics)
      ensures nextStatisticsId == old(nextStatisticsId)
      ensures LatestLoadControl(loadControls, inputFileName, pipelineVersion)
           == Some(LoadControl(old(nextLoadId), pipelineVersion, inputFileName, lastLoadedLineNumber))
    {
      var c := LoadControl(nextLoadId, pipelineVersion, inputFileName, lastLoadedLineNumber);
      LoadControlAppended(loadControls, cleanedReadings, nextLoadId, c);
      LatestOfAppended(loadControls, c, LoadControlId, LoadKey(inputFileName, pipelineVersion));
      loadControls := loadControls + [c];
      nextLoadId := nextLoadId + 1;
    }

    /** `fetch_latest_load_control`. */
    method FetchLatestLoadControl(inputFileName: string, pipelineVersion: int) returns (r: Option<LoadControl>)
      ensures r == LatestLoadControl(loadControls, inputFileName, pipelineVersion)
    {
      r := LatestLoadControl(loadControls, inputFileName, pipelineVersion);
    }

    /** `load_cleaned_data`: a checkpoint, then the cleaned rows tagged with
        its id; earlier rows of every table are left as they were. */
    method LoadCleanedData(pipelineVersion: int, cleaned: seq<CleanedReading>, inputFileName: string,
                           lastLoadedLineNumber: int)
      requires Valid()
      modifies this
      ensures Valid()
      ensures loadControls
           == old(loadControls) + [LoadControl(old(nextLoadId), pipelineVersion, inputFileName, lastLoadedLineNumber)]
      ensures cleanedReadings == old(cleanedReadings) + TagReadings(old(nextLoadId), cleaned)
      ensures ValuesTagged(cleanedReadings, LoadOf, ReadingOf, old(nextLoadId)) == cleaned
      ensures nextLoadId == old(nextLoadId) + 1
      ensures statisticsControls == old(statisticsControls) && statistics == old(statistics)
      ensures nextStatisticsId == old(nextStatisticsId)
      ensures LatestLoadControl(loadControls, inputFileName, pipelineVersion)
           == Some(LoadControl(old(nextLoadId), pipelineVersion, inputFileName, lastLoadedLineNumber))
    {
      var loadId := nextLoadId;
      LoadedReadingsReadBack(loadControls, cleanedReadings, loadId, cleaned);
      InsertLoadControl(pipelineVersion, inputFileName, lastLoadedLineNumber);
      ReadingsAppended(loadControls, cleanedReadings, nextLoadId, cleaned);
      cleanedReadings := cleanedReadings + TagReadings(loadId, cleaned);
    }

    /** `fetch_latest_statistics_control`. */
    method FetchLatestStatisticsControl(pipelineVersion: int, statsVersion: int) returns (r: Option<StatisticsControl>)
      ensures r == LatestStatisticsControl(statisticsControls, pipelineVersion, statsVersion)
    {
      r := LatestStatisticsControl(statisticsControls, pipelineVersion, statsVersion);
    }

    /** `fetch_min_max_cleaned_readings_timestamp`. */
    method FetchMinMaxCleanedReadingsTimestamp(pipelineVersion: int) returns (r: Option<(int, int)>)
      ensures r == TimestampRange(loadControls, cleanedReadings, pipelineVersion)
    {
      r := TimestampRange(loadControls, cleanedReadings, pipelineVersion);
    }

    /** `fetch_cleaned_readings`. */
    method FetchCleanedReadings(pipelineVersion: int, fromDate: int, toDate: int) returns (r: seq<CleanedReading>)
      ensures r == ReadingsIn(loadControls, cleanedReadings, pipelineVersion, fromDate, toDate)
    {
      r := ReadingsIn(loadControls, cleanedReadings, pipelineVersion, fromDate, toDate);
    }

    /** `store_stats`: one window record with the next id, then the summary
        rows tagged with it; earlier rows of every table are left as they were. */
    method StoreStats(pipelineVersion: int, statsVersion: int, fromDate: int, toDate: int, stats: seq<TurbineStats>)
      requires Valid()
      modifies this
      ensures Valid()
      ensures statisticsControls
           == old(statisticsControls) + [StatisticsControl(old(nextStatisticsId), pipelineVersion, statsVersion, fromDate, toDate)]
      ensures statistics == old(statistics) + TagStatistics(old(nextStatisticsId), stats)
      ensures ValuesTagged(statistics, WindowOf, StatsOf, old(nextStatisticsId)) == stats
      ensures nextStatisticsId == old(nextStatisticsId) + 1
      ensures loadControls == old(loadControls) && cleanedReadings == old(cleanedReadings)
      ensures nextLoadId == old(nextLoadId)
      ensures LatestStatisticsControl(statisticsControls, pipelineVersion, statsVersion)
           == Some(StatisticsControl(old(nextStatisticsId), pipelineVersion, statsVersion, fromDate, toDate))
    {
      var id := nextStatisticsId;
      var c := StatisticsControl(id, pipelineVersion, statsVersion, fromDate, toDate);
      StatisticsAppended(statisticsControls, statistics, id, c, stats);
      StoredStatisticsReadBack(statisticsControls, statistics, id, stats);
      LatestOfAppended(statisticsControls, c, StatisticsControlId, StatisticsKey(pipelineVersion, statsVersion));
      statisticsControls := statisticsControls + [c];
      nextStatisticsId := id + 1;
      statistics := statistics + TagStatistics(id, stats);
    }
  }
}
