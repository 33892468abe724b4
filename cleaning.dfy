/** The cleaning transformer (`clean_data`): a pure map from a batch of raw
    CSV rows to cleaned readings, in the order the source applies its steps:
    parse timestamps, coerce numbers, sort by turbine, back-fill, drop
    incomplete rows, cast, and check ranges. */
module Cleaning {
  import opened Wrappers
  import opened Seqs
  import opened Records

  /** The two text conversions the source delegates to its data-frame
      library. Each is partial: `None` is the library's "coerced to a missing
      value". `toDatetime` yields whole seconds. */
  datatype Coercions = Coercions(
    toDatetime: string -> Option<int>,
    toNumeric: string -> Option<real>)

  /** A row after timestamp parsing and numeric coercion: timestamp and
      turbine id are present, the three measurements may still be missing. */
  datatype Row = Row(
    timestamp: int,
    turbineId: int,
    windSpeed: Option<real>,
    windDirection: Option<real>,
    powerOutput: Option<real>)

  /** The three measurement columns that can be back-filled. */
  datatype Column = WindSpeed | WindDirection | PowerOutput

  function Cell(r: Row, c: Column): Option<real> {
    match c
    case WindSpeed => r.windSpeed
    case WindDirection => r.windDirection
    case PowerOutput => r.powerOutput
  }

  // ---------------------------------------------------------------------
  // Steps 1 and 2: timestamp parsing and numeric coercion

  /** Casting a float to an integer column truncates toward zero. */
  function Truncate(x: real): (n: int)
    ensures 0.0 <= x ==> n as real <= x < n as real + 1.0
    ensures x < 0.0 ==> n as real - 1.0 < x <= n as real
  {
    if x >= 0.0 then x.Floor else -((-x).Floor)
  }

  function ParseTimestamp(r: RawRow, c: Coercions): Option<int> {
    match r.timestamp
    case None => None
    case Some(text) => c.toDatetime(text)
  }

  function Numeric(cell: Option<string>, c: Coercions): Option<real> {
    match cell
    case None => None
    case Some(text) => c.toNumeric(text)
  }

  /** One row through the first two steps: no row without a parsed timestamp
      or a numeric turbine id survives; the turbine id is cast to an integer;
      the other measurements are coerced, failures becoming missing values. */
  function ParseRow(r: RawRow, c: Coercions): Option<Row> {
    match ParseTimestamp(r, c)
    case None => None
    case Some(t) =>
      match Numeric(r.turbineId, c)
      case None => None
      case Some(id) =>
        Some(Row(t, Truncate(id), Numeric(r.windSpeed, c), Numeric(r.windDirection, c), Numeric(r.powerOutput, c)))
  }

  /** The whole batch through the first two steps, keeping the input order. */
  function ParseRows(batch: seq<RawRow>, c: Coercions): (r: seq<Row>)
    ensures |r| <= |batch|
  {
    if batch == [] then []
    else (match ParseRow(batch[0], c) case None => [] case Some(x) => [x]) + ParseRows(batch[1..], c)
  }

  /** Every parsed row is the parse of a row of the batch. */
  lemma {:induction false} ParseRowsOrigin(batch: seq<RawRow>, c: Coercions, k: int)
    requires 0 <= k < |ParseRows(batch, c)|
    ensures exists i :: 0 <= i < |batch| && ParseRow(batch[i], c) == Some(ParseRows(batch, c)[k])
  {
    var head := match ParseRow(batch[0], c) case None => [] case Some(x) => [x];
    var rest := ParseRows(batch[1..], c);
    assert ParseRows(batch, c) == head + rest;
    if k < |head| {
      assert ParseRow(batch[0], c) == Some(ParseRows(batch, c)[k]);
    } else {
      ParseRowsOrigin(batch[1..], c, k - |head|);
      var i :| 0 <= i < |batch[1..]| && ParseRow(batch[1..][i], c) == Some(rest[k - |head|]);
      assert ParseRow(batch[i + 1], c) == Some(ParseRows(batch, c)[k]);
    }
  }

  /** Every row of the batch that parses is kept. */
  lemma {:induction false} ParseRowsComplete(batch: seq<RawRow>, c: Coercions, i: int)
    requires 0 <= i < |batch| && ParseRow(batch[i], c).Some?
    ensures ParseRow(batch[i], c).value in ParseRows(batch, c)
  {
    if i > 0 {
      ParseRowsComplete(batch[1..], c, i - 1);
      assert batch[i] == batch[1..][i - 1];
    }
  }

  lemma {:induction false} ParseRowsAppend(a: seq<RawRow>, b: seq<RawRow>, c: Coercions)
    ensures ParseRows(a + b, c) == ParseRows(a, c) + ParseRows(b, c)
  {
    if a == [] {
      assert a + b == b;
    } else {
      assert (a + b)[0] == a[0];
      assert (a + b)[1..] == a[1..] + b;
      ParseRowsAppend(a[1..], b, c);
    }
  }

  // ---------------------------------------------------------------------
  // Step 3: sort by turbine id

  function TurbineKey(r: Row): int { r.turbineId }

  /** The rows of one turbine, in order. */
  function WithTurbine(s: seq<Row>, t: int): seq<Row> {
    if s == [] then []
    else (if s[0].turbineId == t then [s[0]] else []) + WithTurbine(s[1..], t)
  }

  /** Places `x` in front of the first row whose turbine id is not smaller. */
  function InsertByTurbine(x: Row, s: seq<Row>): (r: seq<Row>)
    ensures |r| == |s| + 1
  {
    if s == [] || x.turbineId <= s[0].turbineId then
      [x] + s
    else
      [s[0]] + InsertByTurbine(x, s[1..])
  }

  lemma {:induction false} InsertByTurbinePermutes(x: Row, s: seq<Row>)
    ensures multiset(InsertByTurbine(x, s)) == multiset(s) + multiset{x}
  {
    if !(s == [] || x.turbineId <= s[0].turbineId) {
      InsertByTurbinePermutes(x, s[1..]);
      assert s == [s[0]] + s[1..];
    }
  }

  /** A lower bound of `x` and of every row of `s` bounds the result. */
  lemma {:induction false} InsertByTurbineAbove(x: Row, s: seq<Row>, b: int)
    requires b <= x.turbineId && forall m :: 0 <= m < |s| ==> b <= s[m].turbineId
    ensures forall j :: 0 <= j < |InsertByTurbine(x, s)| ==> b <= InsertByTurbine(x, s)[j].turbineId
  {
    if !(s == [] || x.turbineId <= s[0].turbineId) {
      InsertByTurbineAbove(x, s[1..], b);
      var rest := InsertByTurbine(x, s[1..]);
      assert InsertByTurbine(x, s) == [s[0]] + rest;
    }
  }

  lemma {:induction false} InsertByTurbineSorted(x: Row, s: seq<Row>)
    requires SortedBy(TurbineKey, s)
    ensures SortedBy(TurbineKey, InsertByTurbine(x, s))
  {
    if !(s == [] || x.turbineId <= s[0].turbineId) {
      assert SortedBy(TurbineKey, s[1..]);
      InsertByTurbineSorted(x, s[1..]);
      InsertByTurbineAbove(x, s[1..], s[0].turbineId);
      var rest := InsertByTurbine(x, s[1..]);
      var r := [s[0]] + rest;
      assert InsertByTurbine(x, s) == r;
      forall i, j | 0 <= i < j < |r| ensures r[i].turbineId <= r[j].turbineId {
        assert r[j] == rest[j - 1];
        if i > 0 {
          assert r[i] == rest[i - 1];
        }
      }
    }
  }

  /** A stable insertion sort on the turbine id. */
  function SortByTurbine(s: seq<Row>): (r: seq<Row>)
    ensures |r| == |s|
  {
    if s == [] then [] else InsertByTurbine(s[0], SortByTurbine(s[1..]))
  }

  /** The sort neither loses nor invents rows. */
  lemma {:induction false} SortByTurbinePermutes(s: seq<Row>)
    ensures multiset(SortByTurbine(s)) == multiset(s)
  {
    if s != [] {
      SortByTurbinePermutes(s[1..]);
      InsertByTurbinePermutes(s[0], SortByTurbine(s[1..]));
      assert s == [s[0]] + s[1..];
    }
  }

  lemma {:induction false} SortByTurbineSorted(s: seq<Row>)
    ensures SortedBy(TurbineKey, SortByTurbine(s))
  {
    if s != [] {
      SortByTurbineSorted(s[1..]);
      InsertByTurbineSorted(s[0], SortByTurbine(s[1..]));
    }
  }

  lemma {:induction false} InsertByTurbineStable(x: Row, s: seq<Row>, t: int)
    ensures WithTurbine(InsertByTurbine(x, s), t) == (if x.turbineId == t then [x] else []) + WithTurbine(s, t)
  {
    if s == [] || x.turbineId <= s[0].turbineId {
      var r := [x] + s;
      assert r[0] == x && r[1..] == s;
    } else {
      InsertByTurbineStable(x, s[1..], t);
      var rest := InsertByTurbine(x, s[1..]);
      var r := [s[0]] + rest;
      assert r[0] == s[0] && r[1..] == rest;
      var tail := WithTurbine(s[1..], t);
      assert WithTurbine(s, t) == (if s[0].turbineId == t then [s[0]] else []) + tail;
      if s[0].turbineId == t {
        assert WithTurbine(r, t) == [s[0]] + WithTurbine(rest, t);
        assert WithTurbine(rest, t) == tail;
      } else {
        assert WithTurbine(r, t) == WithTurbine(rest, t);
        assert WithTurbine(s, t) == tail;
      }
    }
  }

  /** Within one turbine the rows keep the order the batch had. */
  lemma {:induction false} SortByTurbineStable(s: seq<Row>, t: int)
    ensures WithTurbine(SortByTurbine(s), t) == WithTurbine(s, t)
  {
    if s != [] {
      SortByTurbineStable(s[1..], t);
      InsertByTurbineStable(s[0], SortByTurbine(s[1..]), t);
    }
  }

  // ---------------------------------------------------------------------
  // Step 4: back-fill, over the whole sorted batch (not per turbine)

  /** A missing cell takes the value of the following row's cell. */
  function FillCell(own: Option<real>, next: Option<real>): Option<real> {
    if own.Some? then own else next
  }

  function FillFrom(r: Row, next: Option<Row>): Row {
    match next
    case None => r
    case Some(n) =>
      r.(windSpeed := FillCell(r.windSpeed, n.windSpeed),
         windDirection := FillCell(r.windDirection, n.windDirection),
         powerOutput := FillCell(r.powerOutput, n.powerOutput))
  }

  /** Backward fill, right to left: each row is filled from the already
      filled row after it, whatever that row's turbine. */
  function BackFill(s: seq<Row>): (r: seq<Row>)
    ensures |r| == |s|
    ensures forall i :: 0 <= i < |s| ==> r[i].timestamp == s[i].timestamp && r[i].turbineId == s[i].turbineId
  {
    if s == [] then []
    else
      var rest := BackFill(s[1..]);
      [FillFrom(s[0], if rest == [] then None else Some(rest[0]))] + rest
  }

  /** Column `c` has a value at row `j`, and at no row from `i` up to `j`. */
  ghost predicate FirstPresent(s: seq<Row>, c: Column, i: int, j: int) {
    && 0 <= i <= j < |s|
    && Cell(s[j], c).Some?
    && forall k :: i <= k < j ==> Cell(s[k], c).None?
  }

  /** Column `c` has a value at some row from `i` on. */
  ghost predicate PresentFrom(s: seq<Row>, c: Column, i: int) {
    exists j :: 0 <= j && i <= j < |s| && Cell(s[j], c).Some?
  }

  /** The cell of a row filled from another. */
  lemma CellOfFill(r: Row, next: Option<Row>, c: Column)
    ensures Cell(FillFrom(r, next), c)
         == if next.None? then Cell(r, c) else FillCell(Cell(r, c), Cell(next.value, c))
  {
  }

  /** Dropping the first row shifts the rows of `s` down by one. */
  lemma PresentShift(s: seq<Row>, c: Column, i: int)
    requires |s| > 0 && 0 <= i
    ensures PresentFrom(s[1..], c, i) <==> PresentFrom(s, c, i + 1)
  {
    if PresentFrom(s[1..], c, i) {
      var j :| i <= j < |s[1..]| && Cell(s[1..][j], c).Some?;
      assert s[j + 1] == s[1..][j];
    }
    if PresentFrom(s, c, i + 1) {
      var j :| i + 1 <= j < |s| && Cell(s[j], c).Some?;
      assert s[1..][j - 1] == s[j];
    }
  }

  lemma FirstPresentShift(s: seq<Row>, c: Column, i: int, j: int)
    requires |s| > 0 && FirstPresent(s[1..], c, i, j)
    ensures FirstPresent(s, c, i + 1, j + 1) && Cell(s[j + 1], c) == Cell(s[1..][j], c)
  {
    forall k | i + 1 <= k < j + 1 ensures Cell(s[k], c).None? {
      assert s[k] == s[1..][k - 1];
    }
  }

  lemma FirstPresentFromStart(s: seq<Row>, c: Column, j: int)
    requires FirstPresent(s, c, 1, j) && Cell(s[0], c).None?
    ensures FirstPresent(s, c, 0, j)
  {
  }

  /** The value a back-fill gives the cell of column `c` at row `i`: there is
      one exactly when some row from `i` on has one, and it is that of the
      nearest such row. */
  lemma {:induction false} BackFillTakesNearestLater(s: seq<Row>, c: Column, i: int)
    requires 0 <= i < |s|
    ensures Cell(BackFill(s)[i], c).Some? <==> PresentFrom(s, c, i)
    ensures Cell(BackFill(s)[i], c).Some? ==>
      exists j :: FirstPresent(s, c, i, j) && Cell(BackFill(s)[i], c) == Cell(s[j], c)
    decreases |s|
  {
    var rest := BackFill(s[1..]);
    var filled := BackFill(s);
    assert filled == [FillFrom(s[0], if rest == [] then None else Some(rest[0]))] + rest;
    if i > 0 {
      BackFillTakesNearestLater(s[1..], c, i - 1);
      assert filled[i] == rest[i - 1];
      PresentShift(s, c, i - 1);
      if Cell(rest[i - 1], c).Some? {
        var j :| FirstPresent(s[1..], c, i - 1, j) && Cell(rest[i - 1], c) == Cell(s[1..][j], c);
        FirstPresentShift(s, c, i - 1, j);
      }
    } else {
      CellOfFill(s[0], if rest == [] then None else Some(rest[0]), c);
      if Cell(s[0], c).Some? {
        assert FirstPresent(s, c, 0, 0);
      } else if rest == [] {
        assert |s| == 1;
        assert !PresentFrom(s, c, 0);
      } else {
        BackFillTakesNearestLater(s[1..], c, 0);
        PresentShift(s, c, 0);
        assert PresentFrom(s, c, 1) <==> PresentFrom(s, c, 0);
        if Cell(rest[0], c).Some? {
          var j :| FirstPresent(s[1..], c, 0, j) && Cell(rest[0], c) == Cell(s[1..][j], c);
          FirstPresentShift(s, c, 0, j);
          FirstPresentFromStart(s, c, j + 1);
        }
      }
    }
  }

  /** A cell that has a value keeps it. */
  lemma BackFillKeepsPresentCell(s: seq<Row>, c: Column, i: int)
    requires 0 <= i < |s| && Cell(s[i], c).Some?
    ensures Cell(BackFill(s)[i], c) == Cell(s[i], c)
  {
    assert PresentFrom(s, c, i);
    BackFillTakesNearestLater(s, c, i);
    var j :| FirstPresent(s, c, i, j) && Cell(BackFill(s)[i], c) == Cell(s[j], c);
    assert j == i;
  }

  /** A filled cell, and the timestamp and turbine, are those of the row. */
  lemma BackFillKeepsPresentCells(s: seq<Row>, i: int)
    requires 0 <= i < |s|
    ensures s[i].windSpeed.Some? ==> BackFill(s)[i].windSpeed == s[i].windSpeed
    ensures s[i].windDirection.Some? ==> BackFill(s)[i].windDirection == s[i].windDirection
    ensures s[i].powerOutput.Some? ==> BackFill(s)[i].powerOutput == s[i].powerOutput
  {
    if s[i].windSpeed.Some? {
      BackFillKeepsPresentCell(s, WindSpeed, i);
    }
    if s[i].windDirection.Some? {
      BackFillKeepsPresentCell(s, WindDirection, i);
    }
    if s[i].powerOutput.Some? {
      BackFillKeepsPresentCell(s, PowerOutput, i);
    }
  }

  // ---------------------------------------------------------------------
  // Steps 5 to 7: drop incomplete rows, cast, check ranges

  predicate IsComplete(r: Row) {
    r.windSpeed.Some? && r.windDirection.Some? && r.powerOutput.Some?
  }

  /** `dropna()`: the rows that still miss a measurement go. */
  function DropIncomplete(s: seq<Row>): (r: seq<Row>)
    ensures forall i :: 0 <= i < |r| ==> IsComplete(r[i])
  {
    assert forall i :: 0 <= i < |Filter(IsComplete, s)| ==> IsComplete(Filter(IsComplete, s)[i]) by {
      forall i | 0 <= i < |Filter(IsComplete, s)| ensures IsComplete(Filter(IsComplete, s)[i]) {
        FilterSound(IsComplete, s, i);
      }
    }
    Filter(IsComplete, s)
  }

  /** The canonical types: wind direction becomes an integer by truncation. */
  function CastRow(r: Row): CleanedReading
    requires IsComplete(r)
  {
    CleanedReading(r.timestamp, r.turbineId, r.windSpeed.value, Truncate(r.windDirection.value), r.powerOutput.value)
  }

  function Cast(s: seq<Row>): (r: seq<CleanedReading>)
    requires forall i :: 0 <= i < |s| ==> IsComplete(s[i])
    ensures |r| == |s|
    ensures forall i :: 0 <= i < |s| ==> r[i] == CastRow(s[i])
  {
    if s == [] then [] else [CastRow(s[0])] + Cast(s[1..])
  }

  /** Inclusive bounds; wind direction is checked after its integer cast. */
  predicate InRange(r: CleanedReading) {
    && 0.0 <= r.windSpeed <= 100.0
    && 0 <= r.windDirection <= 360
    && 0.0 <= r.powerOutput <= 50.0
  }

  function CleanedTurbineKey(r: CleanedReading): int { r.turbineId }

  function RangeFilter(s: seq<CleanedReading>): seq<CleanedReading> {
    Filter(InRange, s)
  }

  /** Steps 3 to 7 on parsed rows. */
  function CleanParsed(rows: seq<Row>): (r: seq<CleanedReading>)
    ensures |r| <= |rows|
    ensures forall i :: 0 <= i < |r| ==> InRange(r[i])
    ensures SortedBy(CleanedTurbineKey, r)
  {
    var sorted := SortByTurbine(rows);
    var filled := Filled(rows);
    SortByTurbineSorted(rows);
    assert SortedBy(TurbineKey, filled) by {
      forall i, j | 0 <= i < j < |filled| ensures filled[i].turbineId <= filled[j].turbineId {
        assert filled[i].turbineId == sorted[i].turbineId && filled[j].turbineId == sorted[j].turbineId;
      }
    }
    var complete := DropIncomplete(filled);
    FilterKeepsOrder(IsComplete, TurbineKey, filled);
    var cast := Cast(complete);
    assert SortedBy(CleanedTurbineKey, cast) by {
      forall i, j | 0 <= i < j < |cast| ensures cast[i].turbineId <= cast[j].turbineId {
        assert cast[i].turbineId == complete[i].turbineId;
      }
    }
    FilterKeepsOrder(InRange, CleanedTurbineKey, cast);
    assert forall i :: 0 <= i < |RangeFilter(cast)| ==> InRange(RangeFilter(cast)[i]) by {
      forall i | 0 <= i < |RangeFilter(cast)| ensures InRange(RangeFilter(cast)[i]) {
        FilterSound(InRange, cast, i);
      }
    }
    RangeFilter(cast)
  }

  /** `clean_data`: the whole transformer. */
  function CleanData(batch: seq<RawRow>, c: Coercions): (r: seq<CleanedReading>)
    ensures |r| <= |batch|
    ensures forall i :: 0 <= i < |r| ==> InRange(r[i])
    ensures SortedBy(CleanedTurbineKey, r)
  {
    CleanParsed(ParseRows(batch, c))
  }

  // ---------------------------------------------------------------------
  // What the output is made of

  /** The parsed rows after the sort and the back-fill. */
  function Filled(rows: seq<Row>): seq<Row> {
    BackFill(SortByTurbine(rows))
  }

  /** Each cleaned row is the cast of a complete, in-range back-filled row. */
  lemma CleanParsedSound(rows: seq<Row>, n: int)
    requires 0 <= n < |CleanParsed(rows)|
    ensures exists k :: 0 <= k < |Filled(rows)| && IsComplete(Filled(rows)[k]) && CleanParsed(rows)[n] == CastRow(Filled(rows)[k])
  {
    var filled := Filled(rows);
    var complete := DropIncomplete(filled);
    var cast := Cast(complete);
    assert CleanParsed(rows) == RangeFilter(cast);
    FilterSound(InRange, cast, n);
    var m :| 0 <= m < |cast| && cast[m] == CleanParsed(rows)[n];
    FilterSound(IsComplete, filled, m);
    var k :| 0 <= k < |filled| && filled[k] == complete[m];
    assert IsComplete(filled[k]) && CleanParsed(rows)[n] == CastRow(filled[k]);
  }

  /** Each complete back-filled row whose cast is in range is kept: the
      filters drop nothing else. */
  lemma CleanParsedComplete(rows: seq<Row>, k: int)
    requires 0 <= k < |Filled(rows)| && IsComplete(Filled(rows)[k]) && InRange(CastRow(Filled(rows)[k]))
    ensures CastRow(Filled(rows)[k]) in CleanParsed(rows)
  {
    var filled := Filled(rows);
    var complete := DropIncomplete(filled);
    var cast := Cast(complete);
    assert CleanParsed(rows) == RangeFilter(cast);
    FilterComplete(IsComplete, filled, k);
    var m :| 0 <= m < |complete| && complete[m] == filled[k];
    assert cast[m] == CastRow(filled[k]);
    FilterComplete(InRange, cast, m);
  }

  /** `o` keeps the key of `p` and every measurement `p` has. */
  ghost predicate CastFrom(p: Row, o: CleanedReading) {
    && p.timestamp == o.timestamp
    && p.turbineId == o.turbineId
    && (p.windSpeed.Some? ==> o.windSpeed == p.windSpeed.value)
    && (p.windDirection.Some? ==> o.windDirection == Truncate(p.windDirection.value))
    && (p.powerOutput.Some? ==> o.powerOutput == p.powerOutput.value)
  }

  /** `o` carries the timestamp and turbine of `raw` and every measurement
      `raw` had: only missing measurements can differ. */
  ghost predicate DerivedFrom(raw: RawRow, c: Coercions, o: CleanedReading) {
    ParseRow(raw, c).Some? && CastFrom(ParseRow(raw, c).value, o)
  }

  /** Every cleaned row comes from a parsed row. */
  lemma CleanParsedOrigin(parsed: seq<Row>, o: CleanedReading)
    requires o in CleanParsed(parsed)
    ensures exists m :: 0 <= m < |parsed| && CastFrom(parsed[m], o)
  {
    var sorted := SortByTurbine(parsed);
    var filled := BackFill(sorted);
    var n :| 0 <= n < |CleanParsed(parsed)| && CleanParsed(parsed)[n] == o;
    CleanParsedSound(parsed, n);
    var k :| 0 <= k < |filled| && IsComplete(filled[k]) && o == CastRow(filled[k]);
    BackFillKeepsPresentCells(sorted, k);
    SortByTurbinePermutes(parsed);
    assert sorted[k] in multiset(parsed);
    var m :| 0 <= m < |parsed| && parsed[m] == sorted[k];
    assert CastFrom(parsed[m], o);
  }

  /** Every cleaned row comes from a row of the batch. */
  lemma CleanDataOrigin(batch: seq<RawRow>, c: Coercions, o: CleanedReading)
    requires o in CleanData(batch, c)
    ensures exists i :: 0 <= i < |batch| && DerivedFrom(batch[i], c, o)
  {
    var parsed := ParseRows(batch, c);
    CleanParsedOrigin(parsed, o);
    var m :| 0 <= m < |parsed| && CastFrom(parsed[m], o);
    ParseRowsOrigin(batch, c, m);
    var i :| 0 <= i < |batch| && ParseRow(batch[i], c) == Some(parsed[m]);
    assert DerivedFrom(batch[i], c, o);
  }

  /** A row whose timestamp does not parse has no effect on the output. */
  lemma UnparsedTimestampIgnored(before: seq<RawRow>, x: RawRow, after: seq<RawRow>, c: Coercions)
    requires ParseTimestamp(x, c).None?
    ensures CleanData(before + [x] + after, c) == CleanData(before + after, c)
  {
    ParseRowsAppend(before + [x], after, c);
    ParseRowsAppend(before, [x], c);
    ParseRowsAppend(before, after, c);
    assert ParseRows([x], c) == [] by {
      assert [x][1..] == [];
    }
    assert ParseRows(before + [x], c) == ParseRows(before, c) + [];
    assert ParseRows(before, c) + [] == ParseRows(before, c);
  }

  /** A row whose turbine id is not numeric has no effect on the output. */
  lemma NonNumericTurbineIgnored(before: seq<RawRow>, x: RawRow, after: seq<RawRow>, c: Coercions)
    requires Numeric(x.turbineId, c).None?
    ensures CleanData(before + [x] + after, c) == CleanData(before + after, c)
  {
    ParseRowsAppend(before + [x], after, c);
    ParseRowsAppend(before, [x], c);
    ParseRowsAppend(before, after, c);
    assert ParseRows([x], c) == [] by {
      assert [x][1..] == [];
    }
    assert ParseRows(before + [x], c) == ParseRows(before, c) + [];
    assert ParseRows(before, c) + [] == ParseRows(before, c);
  }

  // ---------------------------------------------------------------------
  // The scenarios of the cleaning tests, on already parsed rows

  /** Turbine 1's missing wind direction is filled from turbine 1's later
      reading (220); turbine 4's trailing missing one is not filled and its
      row goes; turbine 1's two rows keep their batch order. */
  lemma ImputingScenario()
    ensures CleanParsed([
      Row(1640995200, 1, Some(10.0), None, Some(1.0)),
      Row(1641168000, 2, Some(15.0), Some(180.0), Some(1.5)),
      Row(1641168000, 3, Some(12.0), Some(200.0), Some(1.2)),
      Row(1641171600, 1, Some(14.0), Some(220.0), Some(1.8)),
      Row(1641171600, 4, Some(11.0), None, Some(2.2))])
    == [
      CleanedReading(1640995200, 1, 10.0, 220, 1.0),
      CleanedReading(1641171600, 1, 14.0, 220, 1.8),
      CleanedReading(1641168000, 2, 15.0, 180, 1.5),
      CleanedReading(1641168000, 3, 12.0, 200, 1.2)]
  {
    var r0 := Row(1640995200, 1, Some(10.0), None, Some(1.0));
    var r1 := Row(1641168000, 2, Some(15.0), Some(180.0), Some(1.5));
    var r2 := Row(1641168000, 3, Some(12.0), Some(200.0), Some(1.2));
    var r3 := Row(1641171600, 1, Some(14.0), Some(220.0), Some(1.8));
    var r4 := Row(1641171600, 4, Some(11.0), None, Some(2.2));
    ImputingSort(r0, r1, r2, r3, r4);
    var f0 := r0.(windDirection := Some(220.0));
    ImputingFill(r0, r1, r2, r3, r4);
    ImputingDrop(f0, r1, r2, r3, r4);
    var cast := [
      CleanedReading(1640995200, 1, 10.0, 220, 1.0),
      CleanedReading(1641171600, 1, 14.0, 220, 1.8),
      CleanedReading(1641168000, 2, 15.0, 180, 1.5),
      CleanedReading(1641168000, 3, 12.0, 200, 1.2)];
    assert Cast([f0, r3, r1, r2]) == cast;
    assert RangeFilter(cast) == cast by {
      assert cast[1..][1..][1..][1..] == [];
    }
  }

  // Stages of the imputing scenario, on rows described by their keys only.

  lemma ImputingSort(r0: Row, r1: Row, r2: Row, r3: Row, r4: Row)
    requires r0.turbineId == 1 && r1.turbineId == 2 && r2.turbineId == 3
    requires r3.turbineId == 1 && r4.turbineId == 4
    ensures SortByTurbine([r0, r1, r2, r3, r4]) == [r0, r3, r1, r2, r4]
  {
    assert [r0, r1, r2, r3, r4][1..] == [r1, r2, r3, r4];
    assert [r1, r2, r3, r4][1..] == [r2, r3, r4];
    assert [r2, r3, r4][1..] == [r3, r4];
    assert [r3, r4][1..] == [r4];
    assert SortByTurbine([r4]) == [r4];
    assert SortByTurbine([r3, r4]) == [r3, r4];
    assert InsertByTurbine(r2, [r4]) == [r2, r4];
    assert InsertByTurbine(r2, [r3, r4]) == [r3] + InsertByTurbine(r2, [r4]);
    assert SortByTurbine([r2, r3, r4]) == [r3, r2, r4];
    assert [r3, r2, r4][1..] == [r2, r4];
    assert InsertByTurbine(r1, [r2, r4]) == [r1, r2, r4];
    assert InsertByTurbine(r1, [r3, r2, r4]) == [r3] + InsertByTurbine(r1, [r2, r4]);
    assert SortByTurbine([r1, r2, r3, r4]) == [r3, r1, r2, r4];
    assert InsertByTurbine(r0, [r3, r1, r2, r4]) == [r0, r3, r1, r2, r4];
  }

  lemma ImputingFill(r0: Row, r1: Row, r2: Row, r3: Row, r4: Row)
    requires r0.turbineId == 1 && r1.turbineId == 2 && r2.turbineId == 3
    requires r3.turbineId == 1 && r4.turbineId == 4
    requires r0.windSpeed.Some? && r0.windDirection.None? && r0.powerOutput.Some?
    requires IsComplete(r1) && IsComplete(r2) && IsComplete(r3)
    requires r3.windDirection == Some(220.0) && r4.windDirection.None?
    requires r4.windSpeed.Some? && r4.powerOutput.Some?
    ensures Filled([r0, r1, r2, r3, r4])
         == [r0.(windDirection := Some(220.0)), r3, r1, r2, r4]
  {
    ImputingSort(r0, r1, r2, r3, r4);
    var sorted := [r0, r3, r1, r2, r4];
    assert sorted[1..] == [r3, r1, r2, r4];
    assert [r3, r1, r2, r4][1..] == [r1, r2, r4];
    assert [r1, r2, r4][1..] == [r2, r4];
    assert [r2, r4][1..] == [r4];
    assert BackFill([r4]) == [r4];
    assert BackFill([r2, r4]) == [r2, r4];
    assert BackFill([r1, r2, r4]) == [r1, r2, r4];
    assert BackFill([r3, r1, r2, r4]) == [r3, r1, r2, r4];
  }

  lemma ImputingDrop(f0: Row, r1: Row, r2: Row, r3: Row, r4: Row)
    requires IsComplete(f0) && IsComplete(r1) && IsComplete(r2) && IsComplete(r3)
    requires !IsComplete(r4)
    ensures DropIncomplete([f0, r3, r1, r2, r4]) == [f0, r3, r1, r2]
  {
    assert [f0, r3, r1, r2, r4][1..] == [r3, r1, r2, r4];
    assert [r3, r1, r2, r4][1..] == [r1, r2, r4];
    assert [r1, r2, r4][1..] == [r2, r4];
    assert [r2, r4][1..] == [r4];
    assert [r4][1..] == [];
    assert Filter(IsComplete, [r4]) == [];
    assert Filter(IsComplete, [r2, r4]) == [r2];
    assert Filter(IsComplete, [r1, r2, r4]) == [r1, r2];
    assert Filter(IsComplete, [r3, r1, r2, r4]) == [r3, r1, r2];
  }

  /** Wind directions 361 and -2 are out of range; 180, 200 and 220 are kept. */
  lemma RangeScenario()
    ensures CleanParsed([
      Row(1640995200, 1, Some(10.0), Some(361.0), Some(1.0)),
      Row(1641168000, 2, Some(15.0), Some(180.0), Some(1.5)),
      Row(1641168000, 3, Some(12.0), Some(200.0), Some(1.2)),
      Row(1641171600, 1, Some(14.0), Some(220.0), Some(1.8)),
      Row(1641171600, 4, Some(11.0), Some(-2.0), Some(2.2))])
    == [
      CleanedReading(1641171600, 1, 14.0, 220, 1.8),
      CleanedReading(1641168000, 2, 15.0, 180, 1.5),
      CleanedReading(1641168000, 3, 12.0, 200, 1.2)]
  {
  }
}
