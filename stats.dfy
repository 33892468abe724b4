/** The per-turbine statistics of `calculate_stats`: a first group-by that
    computes min, max, mean and sample variance of the power output, an
    inner join of those summaries back onto the readings with an anomaly
    flag per reading, and a second group-by that reduces each turbine's
    joined rows with `agg_first_value` and `agg_any_true`. */
module Stats {
  import opened Wrappers
  import opened Seqs
  import opened Records

  // ---------------------------------------------------------------------
  // Numeric aggregates over one column

  function Sum(s: seq<real>): real {
    if s == [] then 0.0 else s[0] + Sum(s[1..])
  }

  /** The least element (the `min` aggregate). */
  function MinOf(s: seq<real>): (r: real)
    requires |s| > 0
    ensures r in s
    ensures forall i :: 0 <= i < |s| ==> r <= s[i]
  {
    if |s| == 1 then s[0]
    else
      var m := MinOf(s[1..]);
      assert forall i :: 1 <= i < |s| ==> s[i] == s[1..][i - 1];
      if s[0] <= m then s[0] else m
  }

  /** The greatest element (the `max` aggregate). */
  function MaxOf(s: seq<real>): (r: real)
    requires |s| > 0
    ensures r in s
    ensures forall i :: 0 <= i < |s| ==> s[i] <= r
  {
    if |s| == 1 then s[0]
    else
      var m := MaxOf(s[1..]);
      assert forall i :: 1 <= i < |s| ==> s[i] == s[1..][i - 1];
      if m <= s[0] then s[0] else m
  }

  /** The arithmetic mean (the `mean` aggregate). */
  function Mean(s: seq<real>): real
    requires |s| > 0
  {
    Sum(s) / (|s| as real)
  }

  function SquaredDeviations(s: seq<real>, mean: real): (r: real)
    ensures r >= 0.0
  {
    if s == [] then 0.0
    else
      var d := s[0] - mean;
      assert d * d >= 0.0 by { SquareNonNegative(d); }
      d * d + SquaredDeviations(s[1..], mean)
  }

  lemma SquareNonNegative(d: real)
    ensures d * d >= 0.0
  {
    if d < 0.0 {
      ScaleMonotone(-d, 0.0, -d);
      assert d * d == (-d) * (-d);
    } else {
      ScaleMonotone(d, 0.0, d);
    }
  }

  /** Multiplying by a non-negative factor keeps an ordering. */
  lemma ScaleMonotone(a: real, x: real, y: real)
    requires a >= 0.0 && x <= y
    ensures a * x <= a * y
  {
    assert a * y - a * x == a * (y - x);
  }

  /** The square of the `std` aggregate: the sample variance, with `n - 1`
      in the denominator. With fewer than two values it is undefined (the
      data-frame library yields NaN). */
  function SampleVariance(s: seq<real>): (r: Option<real>)
    ensures r.Some? <==> |s| >= 2
    ensures r.Some? ==> r.value >= 0.0
  {
    if |s| < 2 then None else Some(SquaredDeviations(s, Mean(s)) / ((|s| - 1) as real))
  }

  /** `abs((x - mean) / std) > 2`, squared so that no square root is needed.
      An undefined deviation compares false (NaN > 2 is false). A zero
      variance only arises when every value equals the mean, where the
      floating-point quotient is NaN and the comparison false again. */
  predicate IsAnomaly(x: real, mean: real, variance: Option<real>) {
    variance.Some? && (x - mean) * (x - mean) > 4.0 * variance.value
  }

  /** The reference meaning of `has_anomaly_reading` for one turbine: some
      reading lies more than two sample standard deviations from the mean. */
  ghost predicate HasAnomaly(ps: seq<real>)
    requires |ps| > 0
  {
    exists j :: 0 <= j < |ps| && IsAnomaly(ps[j], Mean(ps), SampleVariance(ps))
  }

  // ---------------------------------------------------------------------
  // Group keys

  /** Adds one key to an ascending list of distinct keys. */
  function InsertId(x: int, ids: seq<int>): (r: seq<int>)
    requires Increasing(ids)
    ensures Increasing(r)
    ensures forall y :: y in r <==> y == x || y in ids
  {
    if ids == [] then [x]
    else if x < ids[0] then [x] + ids
    else if x == ids[0] then ids
    else
      var rest := InsertId(x, ids[1..]);
      assert forall y :: y in ids <==> y == ids[0] || y in ids[1..];
      assert forall k :: 0 <= k < |rest| ==> ids[0] < rest[k] by {
        forall k | 0 <= k < |rest| ensures ids[0] < rest[k] {
          assert rest[k] in rest;
        }
      }
      [ids[0]] + rest
  }

  /** The group keys of a group-by on `turbine_id`: every turbine present,
      once each, in ascending order. */
  function DistinctTurbineIds(rows: seq<CleanedReading>): (r: seq<int>)
    ensures Increasing(r)
  {
    if rows == [] then [] else InsertId(rows[0].turbineId, DistinctTurbineIds(rows[1..]))
  }

  lemma {:induction false} DistinctTurbineIdsMembers(rows: seq<CleanedReading>, t: int)
    ensures t in DistinctTurbineIds(rows) <==> exists i :: 0 <= i < |rows| && rows[i].turbineId == t
  {
    if rows != [] {
      DistinctTurbineIdsMembers(rows[1..], t);
      if exists i :: 0 <= i < |rows[1..]| && rows[1..][i].turbineId == t {
        var i :| 0 <= i < |rows[1..]| && rows[1..][i].turbineId == t;
        assert rows[i + 1].turbineId == t;
      }
      if exists i :: 0 <= i < |rows| && rows[i].turbineId == t {
        var i :| 0 <= i < |rows| && rows[i].turbineId == t;
        if i > 0 {
          assert rows[1..][i - 1].turbineId == t;
        }
      }
    }
  }

  /** The `power_output` column of one turbine's group, in row order. */
  function Powers(rows: seq<CleanedReading>, t: int): (r: seq<real>)
    ensures |r| <= |rows|
  {
    if rows == [] then []
    else (if rows[0].turbineId == t then [rows[0].powerOutput] else []) + Powers(rows[1..], t)
  }

  lemma {:induction false} PowersNonEmpty(rows: seq<CleanedReading>, t: int, i: int)
    requires 0 <= i < |rows| && rows[i].turbineId == t
    ensures |Powers(rows, t)| > 0
  {
    if i > 0 && rows[0].turbineId != t {
      PowersNonEmpty(rows[1..], t, i - 1);
    }
  }

  // ---------------------------------------------------------------------
  // First group-by: one summary per turbine

  /** A row of the first aggregate; `variance` is the square of `std_deviation`. */
  datatype Summary = Summary(
    turbineId: int,
    minPower: real,
    maxPower: real,
    average: real,
    variance: Option<real>)

  function Summarise(rows: seq<CleanedReading>, t: int): (s: Summary)
    requires |Powers(rows, t)| > 0
    ensures s.turbineId == t
  {
    var ps := Powers(rows, t);
    Summary(t, MinOf(ps), MaxOf(ps), Mean(ps), SampleVariance(ps))
  }

  /** `df.groupby('turbine_id').agg(min, max, mean, std)`. */
  function Aggregate(rows: seq<CleanedReading>): (aggs: seq<Summary>)
    ensures |aggs| == |DistinctTurbineIds(rows)|
    ensures forall k :: 0 <= k < |aggs| ==> aggs[k].turbineId == DistinctTurbineIds(rows)[k]
  {
    var ids := DistinctTurbineIds(rows);
    assert forall k :: 0 <= k < |ids| ==> |Powers(rows, ids[k])| > 0 by {
      forall k | 0 <= k < |ids| ensures |Powers(rows, ids[k])| > 0 {
        DistinctTurbineIdsMembers(rows, ids[k]);
        var i :| 0 <= i < |rows| && rows[i].turbineId == ids[k];
        PowersNonEmpty(rows, ids[k], i);
      }
    }
    seq(|ids|, k requires 0 <= k < |ids| => Summarise(rows, ids[k]))
  }

  // ---------------------------------------------------------------------
  // The inner join and the per-reading anomaly flag

  /** A reading joined with its turbine's summary and flagged. */
  datatype Merged = Merged(reading: CleanedReading, summary: Summary, hasAnomaly: bool)

  /** The first summary for turbine `t`, if any. */
  function FindSummary(aggs: seq<Summary>, t: int): (r: Option<Summary>)
    ensures r.Some? ==> r.value in aggs && r.value.turbineId == t
    ensures r.None? <==> forall k :: 0 <= k < |aggs| ==> aggs[k].turbineId != t
  {
    if aggs == [] then None
    else if aggs[0].turbineId == t then Some(aggs[0])
    else
      assert forall k :: 1 <= k < |aggs| ==> aggs[k] == aggs[1..][k - 1];
      FindSummary(aggs[1..], t)
  }

  /** `pd.merge(df, stats, on='turbine_id')` followed by the `has_anomaly`
      column: an inner join, so a reading whose turbine has no summary is
      dropped. */
  function Merge(rows: seq<CleanedReading>, aggs: seq<Summary>): (m: seq<Merged>)
    ensures |m| <= |rows|
  {
    if rows == [] then []
    else
      var head := match FindSummary(aggs, rows[0].turbineId)
        case None => []
        case Some(s) => [Merged(rows[0], s, IsAnomaly(rows[0].powerOutput, s.average, s.variance))];
      head + Merge(rows[1..], aggs)
  }

  function MergedReadings(m: seq<Merged>): (r: seq<CleanedReading>)
    ensures |r| == |m| && forall i :: 0 <= i < |m| ==> r[i] == m[i].reading
  {
    seq(|m|, i requires 0 <= i < |m| => m[i].reading)
  }

  /** When every turbine has a summary, the join keeps every reading, in order. */
  lemma {:induction false} MergeKeepsReadings(rows: seq<CleanedReading>, aggs: seq<Summary>)
    requires forall i :: 0 <= i < |rows| ==> FindSummary(aggs, rows[i].turbineId).Some?
    ensures MergedReadings(Merge(rows, aggs)) == rows
  {
    if rows != [] {
      assert forall i :: 1 <= i < |rows| ==> rows[i] == rows[1..][i - 1];
      MergeKeepsReadings(rows[1..], aggs);
    }
  }

  // ---------------------------------------------------------------------
  // Second group-by: reduce each turbine's joined rows

  /** The joined rows of turbine `t`, in row order. */
  function GroupOf(m: seq<Merged>, t: int): (g: seq<Merged>)
    ensures |g| <= |m|
  {
    if m == [] then []
    else (if m[0].reading.turbineId == t then [m[0]] else []) + GroupOf(m[1..], t)
  }

  lemma {:induction false} GroupOfNonEmpty(m: seq<Merged>, t: int)
    requires t in DistinctTurbineIds(MergedReadings(m))
    ensures |GroupOf(m, t)| > 0
  {
    DistinctTurbineIdsMembers(MergedReadings(m), t);
    var i :| 0 <= i < |m| && m[i].reading.turbineId == t;
    GroupOfHas(m, t, i);
  }

  lemma {:induction false} GroupOfHas(m: seq<Merged>, t: int, i: int)
    requires 0 <= i < |m| && m[i].reading.turbineId == t
    ensures |GroupOf(m, t)| > 0
  {
    if i > 0 && m[0].reading.turbineId != t {
      GroupOfHas(m[1..], t, i - 1);
    }
  }

  /** `agg_first_value`: the first element of a column, `None` for an empty one. */
  function FirstValue<T>(s: seq<T>): (r: Option<T>)
    ensures r.Some? <==> |s| > 0
  {
    if |s| == 0 then None else Some(s[0])
  }

  /** The reason the reduction may take the first value: every joined row
      of a turbine carries the same summary, so the first of a column that
      holds one value throughout is that value. */
  lemma FirstValueOfUniformColumn<T>(s: seq<T>, v: T)
    requires |s| > 0 && forall i :: 0 <= i < |s| ==> s[i] == v
    ensures FirstValue(s) == Some(v)
  {
  }

  /** `agg_any_true`: Python's `any` over a boolean column. */
  function AnyTrue(s: seq<bool>): (r: bool)
    ensures r <==> exists i :: 0 <= i < |s| && s[i]
  {
    if s == [] then false
    else
      assert forall i :: 1 <= i < |s| ==> s[i] == s[1..][i - 1];
      s[0] || AnyTrue(s[1..])
  }

  function MinPowers(g: seq<Merged>): seq<real> {
    seq(|g|, i requires 0 <= i < |g| => g[i].summary.minPower)
  }

  function MaxPowers(g: seq<Merged>): seq<real> {
    seq(|g|, i requires 0 <= i < |g| => g[i].summary.maxPower)
  }

  function Averages(g: seq<Merged>): seq<real> {
    seq(|g|, i requires 0 <= i < |g| => g[i].summary.average)
  }

  function Anomalies(g: seq<Merged>): seq<bool> {
    seq(|g|, i requires 0 <= i < |g| => g[i].hasAnomaly)
  }

  /** One output row from one turbine's joined rows. */
  function ReduceGroup(g: seq<Merged>, t: int): (r: TurbineStats)
    requires |g| > 0
    ensures r.turbineId == t
  {
    TurbineStats(
      t,
      FirstValue(MinPowers(g)).value,
      FirstValue(MaxPowers(g)).value,
      FirstValue(Averages(g)).value,
      AnyTrue(Anomalies(g)))
  }

  /** The second `groupby('turbine_id').agg(...)`: one row per key, in key order. */
  function Reduce(m: seq<Merged>): (r: seq<TurbineStats>)
    ensures |r| == |DistinctTurbineIds(MergedReadings(m))|
  {
    var ids := DistinctTurbineIds(MergedReadings(m));
    assert forall k :: 0 <= k < |ids| ==> |GroupOf(m, ids[k])| > 0 by {
      forall k | 0 <= k < |ids| ensures |GroupOf(m, ids[k])| > 0 {
        GroupOfNonEmpty(m, ids[k]);
      }
    }
    seq(|ids|, k requires 0 <= k < |ids| => ReduceGroup(GroupOf(m, ids[k]), ids[k]))
  }

  /** `calculate_stats` before rounding. */
  function CalculateStats(rows: seq<CleanedReading>): seq<TurbineStats> {
    Reduce(Merge(rows, Aggregate(rows)))
  }

  // ---------------------------------------------------------------------
  // What calculate_stats computes

  /** Every reading of the input finds its turbine's summary. */
  lemma AggregateCoversRows(rows: seq<CleanedReading>, t: int)
    requires exists i :: 0 <= i < |rows| && rows[i].turbineId == t
    ensures |Powers(rows, t)| > 0
    ensures FindSummary(Aggregate(rows), t) == Some(Summarise(rows, t))
  {
    var i :| 0 <= i < |rows| && rows[i].turbineId == t;
    PowersNonEmpty(rows, t, i);
    var ids := DistinctTurbineIds(rows);
    DistinctTurbineIdsMembers(rows, t);
    var k :| 0 <= k < |ids| && ids[k] == t;
    FindSummaryIn(Aggregate(rows), k, t);
    var s := FindSummary(Aggregate(rows), t).value;
    var j :| 0 <= j < |ids| && Aggregate(rows)[j] == s;
    assert ids[j] == t;
  }

  lemma {:induction false} FindSummaryIn(aggs: seq<Summary>, k: int, t: int)
    requires 0 <= k < |aggs| && aggs[k].turbineId == t
    ensures FindSummary(aggs, t).Some?
  {
    if aggs[0].turbineId != t {
      FindSummaryIn(aggs[1..], k - 1, t);
    }
  }

  /** The rows one turbine contributes to the merge: with its summary and
      flag when the turbine has a summary, none when it has not. */
  lemma MergeStep(rows: seq<CleanedReading>, aggs: seq<Summary>)
    requires rows != []
    ensures var head := match FindSummary(aggs, rows[0].turbineId)
        case None => []
        case Some(s) => [Merged(rows[0], s, IsAnomaly(rows[0].powerOutput, s.average, s.variance))];
      Merge(rows, aggs) == head + Merge(rows[1..], aggs)
  {
  }

  /** A group of merged rows pairs up with power outputs: same length, the
      summary `s` on each, and each flagged by its own output. */
  ghost predicate GroupMatches(group: seq<Merged>, powers: seq<real>, s: Summary) {
    && |group| == |powers|
    && forall j :: 0 <= j < |powers| ==>
         group[j].summary == s && group[j].hasAnomaly == IsAnomaly(powers[j], s.average, s.variance)
  }

  lemma GroupMatchesCons(x: Merged, group: seq<Merged>, p: real, powers: seq<real>, s: Summary)
    requires GroupMatches(group, powers, s)
    requires x.summary == s && x.hasAnomaly == IsAnomaly(p, s.average, s.variance)
    ensures GroupMatches([x] + group, [p] + powers, s)
  {
    var g, ps := [x] + group, [p] + powers;
    forall j | 0 < j < |ps| ensures g[j].summary == s && g[j].hasAnomaly == IsAnomaly(ps[j], s.average, s.variance) {
      assert g[j] == group[j - 1] && ps[j] == powers[j - 1];
    }
  }

  /** The joined rows of one turbine are its readings, each carrying the
      turbine's summary and the anomaly flag of its own power output. */
  lemma {:induction false} GroupOfMerge(rows: seq<CleanedReading>, aggs: seq<Summary>, t: int, s: Summary)
    requires FindSummary(aggs, t) == Some(s)
    ensures GroupMatches(GroupOf(Merge(rows, aggs), t), Powers(rows, t), s)
  {
    if rows != [] {
      GroupOfMerge(rows[1..], aggs, t, s);
      if rows[0].turbineId == t {
        GroupOfMergeHere(rows, aggs, t, s);
      } else {
        GroupOfMergeElsewhere(rows, aggs, t, s);
      }
    }
  }

  /** A first reading of turbine `t` heads its group. */
  lemma {:induction false} GroupOfMergeHere(rows: seq<CleanedReading>, aggs: seq<Summary>, t: int, s: Summary)
    requires rows != [] && rows[0].turbineId == t && FindSummary(aggs, t) == Some(s)
    requires GroupMatches(GroupOf(Merge(rows[1..], aggs), t), Powers(rows[1..], t), s)
    ensures GroupMatches(GroupOf(Merge(rows, aggs), t), Powers(rows, t), s)
  {
    MergeStep(rows, aggs);
    var tail := Merge(rows[1..], aggs);
    var x := Merged(rows[0], s, IsAnomaly(rows[0].powerOutput, s.average, s.variance));
    assert Merge(rows, aggs) == [x] + tail;
    assert ([x] + tail)[1..] == tail;
    assert GroupOf(Merge(rows, aggs), t) == [x] + GroupOf(tail, t);
    assert Powers(rows, t) == [rows[0].powerOutput] + Powers(rows[1..], t);
    GroupMatchesCons(x, GroupOf(tail, t), rows[0].powerOutput, Powers(rows[1..], t), s);
  }

  /** A first reading of another turbine leaves the group of `t` alone. */
  lemma {:induction false} GroupOfMergeElsewhere(rows: seq<CleanedReading>, aggs: seq<Summary>, t: int, s: Summary)
    requires rows != [] && rows[0].turbineId != t
    requires GroupMatches(GroupOf(Merge(rows[1..], aggs), t), Powers(rows[1..], t), s)
    ensures GroupMatches(GroupOf(Merge(rows, aggs), t), Powers(rows, t), s)
  {
    MergeStep(rows, aggs);
    var tail := Merge(rows[1..], aggs);
    assert Powers(rows, t) == Powers(rows[1..], t);
    match FindSummary(aggs, rows[0].turbineId)
    case None =>
      assert Merge(rows, aggs) == tail;
    case Some(s') =>
      var x := Merged(rows[0], s', IsAnomaly(rows[0].powerOutput, s'.average, s'.variance));
      assert Merge(rows, aggs) == [x] + tail;
      assert ([x] + tail)[1..] == tail;
      assert GroupOf(Merge(rows, aggs), t) == GroupOf(tail, t);
  }

  /** One output row is the summary of that turbine's power outputs. */
  lemma TurbineRowCorrect(rows: seq<CleanedReading>, t: int)
    requires exists i :: 0 <= i < |rows| && rows[i].turbineId == t
    ensures |Powers(rows, t)| > 0
    ensures |GroupOf(Merge(rows, Aggregate(rows)), t)| > 0
    ensures var r := ReduceGroup(GroupOf(Merge(rows, Aggregate(rows)), t), t);
      && r.minPower == MinOf(Powers(rows, t))
      && r.maxPower == MaxOf(Powers(rows, t))
      && r.average == Mean(Powers(rows, t))
      && (r.hasAnomalyReading <==> HasAnomaly(Powers(rows, t)))
  {
    AggregateCoversRows(rows, t);
    var s := Summarise(rows, t);
    var ps := Powers(rows, t);
    var g := GroupOf(Merge(rows, Aggregate(rows)), t);
    GroupOfMerge(rows, Aggregate(rows), t, s);
    ReduceMatchedGroup(g, ps, s, t);
  }

  /** A group whose rows all carry the summary `s` reduces to the values of
      `s`, flagged exactly when one of its readings is an anomaly. */
  lemma ReduceMatchedGroup(g: seq<Merged>, ps: seq<real>, s: Summary, t: int)
    requires |g| > 0 && GroupMatches(g, ps, s)
    ensures var r := ReduceGroup(g, t);
      && r.minPower == s.minPower && r.maxPower == s.maxPower && r.average == s.average
      && (r.hasAnomalyReading <==> exists j :: 0 <= j < |ps| && IsAnomaly(ps[j], s.average, s.variance))
  {
    FirstValueOfUniformColumn(MinPowers(g), s.minPower);
    FirstValueOfUniformColumn(MaxPowers(g), s.maxPower);
    FirstValueOfUniformColumn(Averages(g), s.average);
    var flags := Anomalies(g);
    assert forall j :: 0 <= j < |flags| ==> (flags[j] <==> IsAnomaly(ps[j], s.average, s.variance));
  }

  /** The output row `r` is the summary of its turbine's readings in `rows`:
      the turbine occurs there, and min, max, average and flag are those of
      its power outputs. */
  ghost predicate Summarises(rows: seq<CleanedReading>, r: TurbineStats) {
    && (exists i :: 0 <= i < |rows| && rows[i].turbineId == r.turbineId)
    && |Powers(rows, r.turbineId)| > 0
    && r.minPower == MinOf(Powers(rows, r.turbineId))
    && r.maxPower == MaxOf(Powers(rows, r.turbineId))
    && r.average == Mean(Powers(rows, r.turbineId))
    && (r.hasAnomalyReading <==> HasAnomaly(Powers(rows, r.turbineId)))
  }

  /** The output is one reduced group per key of the input. */
  lemma CalculateStatsGroups(rows: seq<CleanedReading>)
    ensures |CalculateStats(rows)| == |DistinctTurbineIds(rows)|
    ensures forall k :: 0 <= k < |CalculateStats(rows)| ==>
      && |GroupOf(Merge(rows, Aggregate(rows)), DistinctTurbineIds(rows)[k])| > 0
      && CalculateStats(rows)[k]
         == ReduceGroup(GroupOf(Merge(rows, Aggregate(rows)), DistinctTurbineIds(rows)[k]), DistinctTurbineIds(rows)[k])
  {
    var aggs := Aggregate(rows);
    forall i | 0 <= i < |rows| ensures FindSummary(aggs, rows[i].turbineId).Some? {
      AggregateCoversRows(rows, rows[i].turbineId);
    }
    MergeKeepsReadings(rows, aggs);
    var m := Merge(rows, aggs);
    var ids := DistinctTurbineIds(rows);
    assert DistinctTurbineIds(MergedReadings(m)) == ids;
    assert CalculateStats(rows) == Reduce(m);
    forall k | 0 <= k < |ids|
      ensures |GroupOf(m, ids[k])| > 0 && Reduce(m)[k] == ReduceGroup(GroupOf(m, ids[k]), ids[k])
    {
      GroupOfNonEmpty(m, ids[k]);
    }
  }

  /** `calculate_stats` yields one row per turbine of its input, in ascending
      turbine order, each the summary of that turbine's readings. */
  lemma CalculateStatsCorrect(rows: seq<CleanedReading>)
    ensures var out := CalculateStats(rows);
      && (forall k, l :: 0 <= k < l < |out| ==> out[k].turbineId < out[l].turbineId)
      && (forall i :: 0 <= i < |rows| ==> exists k :: 0 <= k < |out| && out[k].turbineId == rows[i].turbineId)
      && (forall k :: 0 <= k < |out| ==> Summarises(rows, out[k]))
  {
    var ids := DistinctTurbineIds(rows);
    var out := CalculateStats(rows);
    CalculateStatsGroups(rows);
    assert forall k :: 0 <= k < |out| ==> out[k].turbineId == ids[k];
    forall i | 0 <= i < |rows| ensures exists k :: 0 <= k < |out| && out[k].turbineId == rows[i].turbineId {
      DistinctTurbineIdsMembers(rows, rows[i].turbineId);
      var k :| 0 <= k < |ids| && ids[k] == rows[i].turbineId;
      assert out[k].turbineId == rows[i].turbineId;
    }
    forall k | 0 <= k < |out| ensures Summarises(rows, out[k]) {
      var t := ids[k];
      DistinctTurbineIdsMembers(rows, t);
      TurbineRowCorrect(rows, t);
    }
  }

  // ---------------------------------------------------------------------
  // Consequences

  /** A lower bound of every element, times the count, bounds the sum. */
  lemma {:induction false} SumAtLeast(s: seq<real>, lo: real)
    requires forall i :: 0 <= i < |s| ==> lo <= s[i]
    ensures (|s| as real) * lo <= Sum(s)
  {
    if s != [] {
      SumAtLeast(s[1..], lo);
      var n := |s[1..]| as real;
      assert (n + 1.0) * lo == n * lo + lo;
    }
  }

  /** An upper bound of every element, times the count, bounds the sum. */
  lemma {:induction false} SumAtMost(s: seq<real>, hi: real)
    requires forall i :: 0 <= i < |s| ==> s[i] <= hi
    ensures Sum(s) <= (|s| as real) * hi
  {
    if s != [] {
      SumAtMost(s[1..], hi);
      var n := |s[1..]| as real;
      assert (n + 1.0) * hi == n * hi + hi;
    }
  }

  /** Multiplying by a positive factor keeps a strict ordering. */
  lemma ScaleStrict(a: real, x: real, y: real)
    requires a > 0.0 && x < y
    ensures a * x < a * y
  {
    assert a * y - a * x == a * (y - x);
  }

  /** Dividing both sides of `n * b <= a` by a positive `n`. */
  lemma DivideLower(a: real, b: real, n: real)
    requires n > 0.0 && n * b <= a
    ensures b <= a / n
  {
    var q := a / n;
    assert n * q == a;
    if q < b {
      ScaleStrict(n, q, b);
    }
  }

  /** Dividing both sides of `a <= n * b` by a positive `n`. */
  lemma DivideUpper(a: real, b: real, n: real)
    requires n > 0.0 && a <= n * b
    ensures a / n <= b
  {
    var q := a / n;
    assert n * q == a;
    if b < q {
      ScaleStrict(n, b, q);
    }
  }

  /** Bounds on every reading bound their mean. */
  lemma MeanWithin(s: seq<real>, lo: real, hi: real)
    requires |s| > 0
    requires forall i :: 0 <= i < |s| ==> lo <= s[i] <= hi
    ensures lo <= Mean(s) <= hi
  {
    var n, sum := |s| as real, Sum(s);
    SumAtLeast(s, lo);
    SumAtMost(s, hi);
    DivideLower(sum, lo, n);
    DivideUpper(sum, hi, n);
  }

  /** The mean lies between the least and the greatest reading. */
  lemma MeanBetweenMinAndMax(s: seq<real>)
    requires |s| > 0
    ensures MinOf(s) <= Mean(s) <= MaxOf(s)
  {
    MeanWithin(s, MinOf(s), MaxOf(s));
  }

  lemma {:induction false} SumOfConstant(s: seq<real>, v: real)
    requires forall i :: 0 <= i < |s| ==> s[i] == v
    ensures Sum(s) == (|s| as real) * v
  {
    if s != [] {
      SumOfConstant(s[1..], v);
    }
  }

  lemma {:induction false} DeviationsOfConstant(s: seq<real>, v: real)
    requires forall i :: 0 <= i < |s| ==> s[i] == v
    ensures SquaredDeviations(s, v) == 0.0
  {
    if s != [] {
      DeviationsOfConstant(s[1..], v);
    }
  }

  /** No reading is flagged when the standard deviation is undefined (a
      single reading) or zero (all readings equal). */
  lemma NoAnomalyWhenNoSpread(ps: seq<real>)
    requires |ps| > 0
    requires |ps| == 1 || forall i :: 0 <= i < |ps| ==> ps[i] == ps[0]
    ensures !HasAnomaly(ps)
  {
    if |ps| > 1 {
      var v := ps[0];
      SumOfConstant(ps, v);
      assert Mean(ps) == v;
      DeviationsOfConstant(ps, v);
      assert SampleVariance(ps) == Some(0.0);
    }
  }

  // ---------------------------------------------------------------------
  // The statistics test's turbines

  /** Turbine 1 of the statistics test: min 1.00, max 1.20, average 1.10, no anomaly. */
  lemma TwoReadingScenario()
    ensures MinOf([1.0, 1.2]) == 1.0 && MaxOf([1.0, 1.2]) == 1.2
    ensures Mean([1.0, 1.2]) == 1.1
    ensures !HasAnomaly([1.0, 1.2])
  {
    var ps := [1.0, 1.2];
    assert ps[1..] == [1.2];
    assert Sum(ps) == 2.2;
    assert SquaredDeviations(ps, 1.1) == 0.02;
  }

  /** Turbine 2 of the statistics test: no reading is two deviations out. */
  lemma ThreeReadingScenario()
    ensures MinOf([0.8, 1.5, 1.4]) == 0.8 && MaxOf([0.8, 1.5, 1.4]) == 1.5
    ensures Mean([0.8, 1.5, 1.4]) == 3.7 / 3.0
    ensures !HasAnomaly([0.8, 1.5, 1.4])
  {
    var ps := [0.8, 1.5, 1.4];
    assert ps[1..] == [1.5, 1.4] && ps[1..][1..] == [1.4];
    assert Sum(ps) == 3.7;
    var m := 3.7 / 3.0;
    var d := SquaredDeviations(ps, m);
    assert d == (0.8 - m) * (0.8 - m) + (1.5 - m) * (1.5 - m) + (1.4 - m) * (1.4 - m);
  }

  /** Turbine 3 of the statistics test: the reading 15.13199601 is an anomaly. */
  lemma OutlierScenario()
    ensures Mean([1.898753, -1.22217336, -1.05931412, 15.13199601, -0.07501486, 0.14636453]) == 14.8206112 / 6.0
    ensures HasAnomaly([1.898753, -1.22217336, -1.05931412, 15.13199601, -0.07501486, 0.14636453])
  {
    var ps := [1.898753, -1.22217336, -1.05931412, 15.13199601, -0.07501486, 0.14636453];
    assert ps[1..] == [-1.22217336, -1.05931412, 15.13199601, -0.07501486, 0.14636453];
    assert ps[1..][1..] == [-1.05931412, 15.13199601, -0.07501486, 0.14636453];
    assert ps[1..][1..][1..] == [15.13199601, -0.07501486, 0.14636453];
    assert ps[1..][1..][1..][1..] == [-0.07501486, 0.14636453];
    assert ps[1..][1..][1..][1..][1..] == [0.14636453];
    assert Sum(ps) == 14.8206112;
    var m := 14.8206112 / 6.0;
    assert IsAnomaly(ps[3], Mean(ps), SampleVariance(ps));
  }

  /** Turbine 3 of the statistics test: the least reading is -1.22217336. */
  lemma OutlierMin()
    ensures MinOf([1.898753, -1.22217336, -1.05931412, 15.13199601, -0.07501486, 0.14636453]) == -1.22217336
  {
    var ps := [1.898753, -1.22217336, -1.05931412, 15.13199601, -0.07501486, 0.14636453];
    assert ps[1..] == [-1.22217336, -1.05931412, 15.13199601, -0.07501486, 0.14636453];
    var m := MinOf(ps);
    assert m <= ps[1] && m in ps;
  }

  /** Turbine 3 of the statistics test: the greatest reading is 15.13199601. */
  lemma OutlierMax()
    ensures MaxOf([1.898753, -1.22217336, -1.05931412, 15.13199601, -0.07501486, 0.14636453]) == 15.13199601
  {
    var ps := [1.898753, -1.22217336, -1.05931412, 15.13199601, -0.07501486, 0.14636453];
    var m := MaxOf(ps);
    assert ps[3] <= m && m in ps;
  }

  /** The input of the statistics test: turbine 1 on 2023-01-01, turbine 2
      on both days, turbine 3 on 2023-01-02 (timestamps in seconds). */
  /** The readings of the statistics test, which arrive grouped by turbine;
      the test takes its timestamps from two days, `day1` and `day2`. */
  function StatsTestRows(day1: int, day2: int): seq<CleanedReading> {
    Turbine1TestRows(day1) + (Turbine2TestRows(day1, day2) + Turbine3TestRows(day2))
  }

  function Turbine1TestRows(day1: int): seq<CleanedReading> {
    [ CleanedReading(day1, 1, 10.0, 180, 1.0),
      CleanedReading(day1, 1, 12.0, 185, 1.2) ]
  }

  function Turbine2TestRows(day1: int, day2: int): seq<CleanedReading> {
    [ CleanedReading(day1, 2, 8.0, 200, 0.8),
      CleanedReading(day2, 2, 15.0, 220, 1.5),
      CleanedReading(day2, 2, 14.0, 210, 1.4) ]
  }

  function Turbine3TestRows(day2: int): seq<CleanedReading> {
    [ CleanedReading(day2, 3, 8.0, 120, 1.898753),
      CleanedReading(day2, 3, 10.0, 140, -1.22217336),
      CleanedReading(day2, 3, 11.0, 280, -1.05931412),
      CleanedReading(day2, 3, 10.0, 300, 15.13199601),
      CleanedReading(day2, 3, 15.0, 180, -0.07501486),
      CleanedReading(day2, 3, 20.0, 120, 0.14636453) ]
  }

  /** The power outputs of a turbine in a concatenation are those of each part, in order. */
  lemma {:induction false} PowersAppend(a: seq<CleanedReading>, b: seq<CleanedReading>, t: int)
    ensures Powers(a + b, t) == Powers(a, t) + Powers(b, t)
  {
    if a == [] {
      assert a + b == b;
    } else {
      assert (a + b)[1..] == a[1..] + b;
      PowersAppend(a[1..], b, t);
      var head := if a[0].turbineId == t then [a[0].powerOutput] else [];
      AppendAssociates(head, Powers(a[1..], t), Powers(b, t));
    }
  }

  /** A turbine none of whose readings are in `rows` has no power outputs there. */
  lemma {:induction false} PowersOfAbsentTurbine(rows: seq<CleanedReading>, t: int)
    requires forall i :: 0 <= i < |rows| ==> rows[i].turbineId != t
    ensures Powers(rows, t) == []
  {
    if rows != [] {
      PowersOfAbsentTurbine(rows[1..], t);
    }
  }

  /** A block of readings of one turbine `t`, followed by readings whose keys
      all exceed `t`, puts `t` first among the group keys. */
  lemma {:induction false} DistinctIdsOfBlock(a: seq<CleanedReading>, b: seq<CleanedReading>, t: int)
    requires |a| > 0 && forall i :: 0 <= i < |a| ==> a[i].turbineId == t
    requires DistinctTurbineIds(b) == [] || t < DistinctTurbineIds(b)[0]
    ensures DistinctTurbineIds(a + b) == [t] + DistinctTurbineIds(b)
  {
    assert (a + b)[0] == a[0] && (a + b)[1..] == a[1..] + b;
    if |a| == 1 {
      assert a[1..] + b == b;
    } else {
      DistinctIdsOfBlock(a[1..], b, t);
    }
  }

  /** Two output rows that summarise the same power outputs of the same turbine are equal. */
  lemma SameSummary(rows: seq<CleanedReading>, x: TurbineStats, rows': seq<CleanedReading>, y: TurbineStats)
    requires Summarises(rows, x) && Summarises(rows', y) && x.turbineId == y.turbineId
    requires Powers(rows, x.turbineId) == Powers(rows', y.turbineId)
    ensures x == y
  { }

  /** One output row per group key. */
  lemma CalculateStatsLength(rows: seq<CleanedReading>)
    ensures |CalculateStats(rows)| == |DistinctTurbineIds(rows)|
  {
    CalculateStatsGroups(rows);
  }

  /** The `k`-th output row belongs to the `k`-th key and summarises it. */
  lemma CalculateStatsAt(rows: seq<CleanedReading>, k: int)
    requires 0 <= k < |DistinctTurbineIds(rows)|
    ensures |CalculateStats(rows)| == |DistinctTurbineIds(rows)|
    ensures CalculateStats(rows)[k].turbineId == DistinctTurbineIds(rows)[k]
    ensures Summarises(rows, CalculateStats(rows)[k])
  {
    CalculateStatsGroups(rows);
    CalculateStatsCorrect(rows);
  }

  /** See `CalculateStatsOfBlock`: the first row summarises the block. */
  lemma BlockFirstRow(a: seq<CleanedReading>, b: seq<CleanedReading>, t: int)
    requires |a| > 0 && forall i :: 0 <= i < |a| ==> a[i].turbineId == t
    requires DistinctTurbineIds(b) == [] || t < DistinctTurbineIds(b)[0]
    ensures |Powers(a, t)| > 0 && |CalculateStats(a + b)| == 1 + |DistinctTurbineIds(b)|
    ensures var ps := Powers(a, t);
      CalculateStats(a + b)[0] == TurbineStats(t, MinOf(ps), MaxOf(ps), Mean(ps), HasAnomaly(ps))
  {
    PowersNonEmpty(a, t, 0);
    var idsB := DistinctTurbineIds(b);
    DistinctIdsOfBlock(a, b, t);
    CalculateStatsAt(a + b, 0);
    assert forall k :: 0 <= k < |idsB| ==> t < idsB[k];
    DistinctTurbineIdsMembers(b, t);
    PowersOfAbsentTurbine(b, t);
    PowersAppend(a, b, t);
    assert Powers(a, t) + [] == Powers(a, t);
  }

  /** See `CalculateStatsOfBlock`: the later rows are those of the rest. */
  lemma BlockLaterRow(a: seq<CleanedReading>, b: seq<CleanedReading>, t: int, k: int)
    requires |a| > 0 && forall i :: 0 <= i < |a| ==> a[i].turbineId == t
    requires DistinctTurbineIds(b) == [] || t < DistinctTurbineIds(b)[0]
    requires 0 <= k < |CalculateStats(b)|
    ensures |CalculateStats(a + b)| == 1 + |CalculateStats(b)|
    ensures CalculateStats(a + b)[k + 1] == CalculateStats(b)[k]
  {
    CalculateStatsLength(b);
    var idsB := DistinctTurbineIds(b);
    var u := idsB[k];
    assert t < u;
    DistinctIdsOfBlock(a, b, t);
    CalculateStatsAt(a + b, k + 1);
    CalculateStatsAt(b, k);
    PowersOfAbsentTurbine(a, u);
    PowersAppend(a, b, u);
    SameSummary(a + b, CalculateStats(a + b)[k + 1], b, CalculateStats(b)[k]);
  }

  /** Readings of one turbine `t` placed before readings whose keys all exceed
      `t` add exactly one output row, first, summarising that block. */
  lemma CalculateStatsOfBlock(a: seq<CleanedReading>, b: seq<CleanedReading>, t: int)
    requires |a| > 0 && forall i :: 0 <= i < |a| ==> a[i].turbineId == t
    requires DistinctTurbineIds(b) == [] || t < DistinctTurbineIds(b)[0]
    ensures |Powers(a, t)| > 0
    ensures var ps := Powers(a, t);
      CalculateStats(a + b) == [TurbineStats(t, MinOf(ps), MaxOf(ps), Mean(ps), HasAnomaly(ps))] + CalculateStats(b)
  {
    BlockFirstRow(a, b, t);
    CalculateStatsLength(b);
    var out, outB := CalculateStats(a + b), CalculateStats(b);
    var ps := Powers(a, t);
    var expected := [TurbineStats(t, MinOf(ps), MaxOf(ps), Mean(ps), HasAnomaly(ps))] + outB;
    forall k | 0 <= k < |out| ensures out[k] == expected[k] {
      if k > 0 {
        BlockLaterRow(a, b, t, k - 1);
      }
    }
  }

  /** Turbine 3's block of the statistics test on its own. */
  lemma Turbine3Stats(day2: int)
    ensures CalculateStats(Turbine3TestRows(day2))
      == [TurbineStats(3, -1.22217336, 15.13199601, 14.8206112 / 6.0, true)]
  {
    var r3 := Turbine3TestRows(day2);
    assert r3 + [] == r3;
    assert |CalculateStats([])| == 0 by { CalculateStatsGroups([]); }
    CalculateStatsOfBlock(r3, [], 3);
    var ps := Powers(r3, 3);
    assert MinOf(ps) == -1.22217336 && MaxOf(ps) == 15.13199601 by {
      Turbine3Powers(day2);
      OutlierMin();
      OutlierMax();
    }
    assert Mean(ps) == 14.8206112 / 6.0 && HasAnomaly(ps) by {
      Turbine3Powers(day2);
      OutlierScenario();
    }
  }

  /** Turbines 2 and 3 of the statistics test. */
  lemma Turbines23Stats(day1: int, day2: int)
    ensures CalculateStats(Turbine2TestRows(day1, day2) + Turbine3TestRows(day2)) == [
      TurbineStats(2, 0.8, 1.5, 3.7 / 3.0, false),
      TurbineStats(3, -1.22217336, 15.13199601, 14.8206112 / 6.0, true)]
  {
    var r2, r3 := Turbine2TestRows(day1, day2), Turbine3TestRows(day2);
    assert CalculateStats(r2 + r3) == [TurbineStats(2, 0.8, 1.5, 3.7 / 3.0, false)] + CalculateStats(r3) by {
      assert DistinctTurbineIds(r3) == [3] by {
        assert r3 + [] == r3;
        DistinctIdsOfBlock(r3, [], 3);
      }
      CalculateStatsOfBlock(r2, r3, 2);
      var ps := Powers(r2, 2);
      assert MinOf(ps) == 0.8 && MaxOf(ps) == 1.5 && Mean(ps) == 3.7 / 3.0 && !HasAnomaly(ps) by {
        Turbine2Powers(day1, day2);
        ThreeReadingScenario();
      }
    }
    Turbine3Stats(day2);
  }

  /** `calculate_stats` on the statistics test's input, whatever its two
      days: one row per turbine, in turbine order, with the expected min,
      max and average (before rounding to two decimals) and only turbine 3
      flagged. */
  lemma StatsTestScenario(day1: int, day2: int)
    ensures CalculateStats(StatsTestRows(day1, day2)) == [
      TurbineStats(1, 1.0, 1.2, 1.1, false),
      TurbineStats(2, 0.8, 1.5, 3.7 / 3.0, false),
      TurbineStats(3, -1.22217336, 15.13199601, 14.8206112 / 6.0, true)]
  {
    var r1, r2, r3 := Turbine1TestRows(day1), Turbine2TestRows(day1, day2), Turbine3TestRows(day2);
    assert CalculateStats(r1 + (r2 + r3)) == [TurbineStats(1, 1.0, 1.2, 1.1, false)] + CalculateStats(r2 + r3) by {
      assert DistinctTurbineIds(r2 + r3) == [2, 3] by {
        assert r3 + [] == r3;
        DistinctIdsOfBlock(r3, [], 3);
        DistinctIdsOfBlock(r2, r3, 2);
      }
      CalculateStatsOfBlock(r1, r2 + r3, 1);
      var ps := Powers(r1, 1);
      assert MinOf(ps) == 1.0 && MaxOf(ps) == 1.2 && Mean(ps) == 1.1 && !HasAnomaly(ps) by {
        Turbine1Powers(day1);
        TwoReadingScenario();
      }
    }
    Turbines23Stats(day1, day2);
  }

  lemma Turbine1Powers(day1: int)
    ensures Powers(Turbine1TestRows(day1), 1) == [1.0, 1.2]
  {
    var r := Turbine1TestRows(day1);
    assert Powers(r[2..], 1) == [];
    assert r[1..][0] == r[1] && r[1..][1..] == r[2..];
    assert Powers(r[1..], 1) == [1.2];
    assert r[0..][1..] == r[1..] && r[0..] == r;
  }

  lemma Turbine2Powers(day1: int, day2: int)
    ensures Powers(Turbine2TestRows(day1, day2), 2) == [0.8, 1.5, 1.4]
  {
    var r := Turbine2TestRows(day1, day2);
    assert Powers(r[3..], 2) == [];
    assert r[2..][0] == r[2] && r[2..][1..] == r[3..];
    assert Powers(r[2..], 2) == [1.4];
    assert r[1..][0] == r[1] && r[1..][1..] == r[2..];
    assert Powers(r[1..], 2) == [1.5, 1.4];
    assert r[0..][1..] == r[1..] && r[0..] == r;
  }

  lemma Turbine3Powers(day2: int)
    ensures Powers(Turbine3TestRows(day2), 3) == [1.898753, -1.22217336, -1.05931412, 15.13199601, -0.07501486, 0.14636453]
  {
    var r := Turbine3TestRows(day2);
    assert Powers(r[6..], 3) == [];
    assert r[5..][0] == r[5] && r[5..][1..] == r[6..];
    assert Powers(r[5..], 3) == [0.14636453];
    assert r[4..][0] == r[4] && r[4..][1..] == r[5..];
    assert Powers(r[4..], 3) == [-0.07501486, 0.14636453];
    assert r[3..][0] == r[3] && r[3..][1..] == r[4..];
    assert Powers(r[3..], 3) == [15.13199601, -0.07501486, 0.14636453];
    assert r[2..][0] == r[2] && r[2..][1..] == r[3..];
    assert Powers(r[2..], 3) == [-1.05931412, 15.13199601, -0.07501486, 0.14636453];
    assert r[1..][0] == r[1] && r[1..][1..] == r[2..];
    assert Powers(r[1..], 3) == [-1.22217336, -1.05931412, 15.13199601, -0.07501486, 0.14636453];
    assert r[0..][0] == r[0] && r[0..][1..] == r[1..];
    assert Powers(r[0..], 3) == [1.898753, -1.22217336, -1.05931412, 15.13199601, -0.07501486, 0.14636453];
    assert r[0..] == r;
  }
}
