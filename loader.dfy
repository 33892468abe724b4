/** The incremental loader (`do_etl`): read the file's latest checkpoint,
    read the next chunk of data rows after it, clean the chunk and store it
    with a new checkpoint, until a read comes back empty. */
module Loader {
  import opened Wrappers
  import opened Seqs
  import opened Records
  import opened Cleaning
  import opened Persistence

  /** `read_csv(skiprows=range(1, startRow), nrows=chunkSize)` on a file whose
      data rows are `csv` (data row `k`, counting from 1, is `csv[k - 1]`; the
      header is not part of `csv`): up to `chunkSize` rows from row
      `startRow` on. A start before row 1 skips nothing; a start beyond the
      last row reads nothing. */
  function ReadChunk(csv: seq<RawRow>, startRow: int, chunkSize: nat): (r: seq<RawRow>)
    ensures |r| <= chunkSize
    ensures r == [] <==> chunkSize == 0 || |csv| < (if startRow < 1 then 1 else startRow)
    ensures 1 <= startRow <= |csv| + 1 ==>
      && |r| == (if |csv| - (startRow - 1) < chunkSize then |csv| - (startRow - 1) else chunkSize)
      && r == csv[startRow - 1 .. startRow - 1 + |r|]
  {
    var lo := if startRow < 1 then 0 else if startRow - 1 > |csv| then |csv| else startRow - 1;
    var hi := if lo + chunkSize > |csv| then |csv| else lo + chunkSize;
    csv[lo..hi]
  }

  /** Where the next read starts from: the checkpoint's line number, or 0
      when the file has no checkpoint yet. */
  function LastLoaded(latest: Option<LoadControl>): int {
    match latest
    case None => 0
    case Some(c) => c.lastLoadedLineNumber
  }

  /** One pass of the loop: the raw rows read and the checkpoint recorded. */
  datatype Chunk = Chunk(rows: seq<RawRow>, lastLine: int)

  /** The passes of the loop from checkpoint `last` on, up to the empty read.
      The new checkpoint is `start_row + total_rows - 1`, where `start_row`
      is `last + 1`: it counts raw rows, however many cleaning dropped. */
  function Plan(csv: seq<RawRow>, last: int, chunkSize: nat): seq<Chunk>
    decreases |csv| - last
  {
    var rows := ReadChunk(csv, last + 1, chunkSize);
    if rows == [] then []
    else [Chunk(rows, last + 1 + |rows| - 1)] + Plan(csv, last + |rows|, chunkSize)
  }

  /** The checkpoints the passes write, with ids handed out from `firstId`. */
  function ControlsFor(plan: seq<Chunk>, firstId: int, pipelineVersion: int, inputFileName: string): (r: seq<LoadControl>)
    ensures |r| == |plan|
    ensures forall k :: 0 <= k < |plan| ==>
      r[k] == LoadControl(firstId + k, pipelineVersion, inputFileName, plan[k].lastLine)
  {
    seq(|plan|, k requires 0 <= k < |plan| => LoadControl(firstId + k, pipelineVersion, inputFileName, plan[k].lastLine))
  }

  /** The readings the passes write: each chunk cleaned and tagged with its
      checkpoint's id. */
  function ReadingsFor(plan: seq<Chunk>, firstId: int, c: Coercions): seq<StoredReading> {
    if plan == [] then []
    else
      var n := |plan|;
      ReadingsFor(plan[..n - 1], firstId, c) + TagReadings(firstId + n - 1, CleanData(plan[n - 1].rows, c))
  }

  /** All raw rows the passes read, in order. */
  function AllRows(plan: seq<Chunk>): seq<RawRow> {
    if plan == [] then [] else plan[0].rows + AllRows(plan[1..])
  }

  // ---------------------------------------------------------------------
  // The loop

  /** `do_etl`: the store ends up with exactly the checkpoints and readings
      of `Plan`, starting from the file's latest checkpoint, and the loop
      stops on the first empty read. */
  method DoEtl(db: DatabaseManager, inputFileName: string, pipelineVersion: int, csv: seq<RawRow>,
               chunkSize: nat, c: Coercions)
    requires db.Valid()
    modifies db
    ensures db.Valid()
    ensures var plan := Plan(csv, LastLoaded(old(LatestLoadControl(db.loadControls, inputFileName, pipelineVersion))), chunkSize);
      && db.loadControls == old(db.loadControls) + ControlsFor(plan, old(db.nextLoadId), pipelineVersion, inputFileName)
      && db.cleanedReadings == old(db.cleanedReadings) + ReadingsFor(plan, old(db.nextLoadId), c)
      && db.nextLoadId == old(db.nextLoadId) + |plan|
    ensures db.statisticsControls == old(db.statisticsControls) && db.statistics == old(db.statistics)
    ensures db.nextStatisticsId == old(db.nextStatisticsId)
    ensures ReadChunk(csv, LastLoaded(LatestLoadControl(db.loadControls, inputFileName, pipelineVersion)) + 1, chunkSize) == []
  {
    ghost var last0 := LastLoaded(LatestLoadControl(db.loadControls, inputFileName, pipelineVersion));
    ghost var done: seq<Chunk> := [];
    ghost var cur := last0;
    while true
      invariant db.Valid()
      invariant LastLoaded(LatestLoadControl(db.loadControls, inputFileName, pipelineVersion)) == cur
      invariant done + Plan(csv, cur, chunkSize) == Plan(csv, last0, chunkSize)
      invariant db.loadControls == old(db.loadControls) + ControlsFor(done, old(db.nextLoadId), pipelineVersion, inputFileName)
      invariant db.cleanedReadings == old(db.cleanedReadings) + ReadingsFor(done, old(db.nextLoadId), c)
      invariant db.nextLoadId == old(db.nextLoadId) + |done|
      invariant db.statisticsControls == old(db.statisticsControls) && db.statistics == old(db.statistics)
      invariant db.nextStatisticsId == old(db.nextStatisticsId)
      decreases |csv| - cur
    {
      var latest := db.FetchLatestLoadControl(inputFileName, pipelineVersion);
      var startRow := 1;
      if latest.Some? {
        startRow := latest.value.lastLoadedLineNumber + 1;
      }
      var rows := ReadChunk(csv, startRow, chunkSize);
      var totalRows := |rows|;
      assert startRow == cur + 1;
      if totalRows < 1 {
        assert Plan(csv, cur, chunkSize) == [];
        assert done + [] == done;
        break;
      }
      var cleaned := CleanData(rows, c);
      var lastProcessed := startRow + totalRows - 1;
      ghost var chunk := Chunk(rows, lastProcessed);
      PlanAdvance(csv, last0, done, cur, rows, lastProcessed, chunkSize);
      ghost var controls, readings, id := db.loadControls, db.cleanedReadings, db.nextLoadId;
      db.LoadCleanedData(pipelineVersion, cleaned, inputFileName, lastProcessed);
      ControlsExtend(old(db.loadControls), controls, db.loadControls, done, chunk, old(db.nextLoadId), id,
                     pipelineVersion, inputFileName);
      ReadingsExtend(old(db.cleanedReadings), readings, db.cleanedReadings, done, chunk, cleaned, old(db.nextLoadId), id, c);
      done := done + [chunk];
      cur := lastProcessed;
    }
  }

  /** One pass of the loop peels one chunk off the plan. */
  lemma PlanAdvance(csv: seq<RawRow>, last0: int, done: seq<Chunk>, cur: int, rows: seq<RawRow>, next: int,
                    chunkSize: nat)
    requires done + Plan(csv, cur, chunkSize) == Plan(csv, last0, chunkSize)
    requires rows == ReadChunk(csv, cur + 1, chunkSize) && rows != []
    requires next == cur + |rows|
    ensures (done + [Chunk(rows, next)]) + Plan(csv, next, chunkSize) == Plan(csv, last0, chunkSize)
  {
    assert Plan(csv, cur, chunkSize) == [Chunk(rows, next)] + Plan(csv, next, chunkSize);
    AppendAssociates(done, [Chunk(rows, next)], Plan(csv, next, chunkSize));
  }

  /** One more pass appends one checkpoint to what the earlier passes wrote. */
  lemma ControlsExtend(controls0: seq<LoadControl>, controls: seq<LoadControl>, controls': seq<LoadControl>,
                       done: seq<Chunk>, chunk: Chunk, firstId: int, id: int, pipelineVersion: int, inputFileName: string)
    requires controls == controls0 + ControlsFor(done, firstId, pipelineVersion, inputFileName)
    requires id == firstId + |done|
    requires controls' == controls + [LoadControl(id, pipelineVersion, inputFileName, chunk.lastLine)]
    ensures controls' == controls0 + ControlsFor(done + [chunk], firstId, pipelineVersion, inputFileName)
  {
    var before := ControlsFor(done, firstId, pipelineVersion, inputFileName);
    var after := ControlsFor(done + [chunk], firstId, pipelineVersion, inputFileName);
    var control := LoadControl(firstId + |done|, pipelineVersion, inputFileName, chunk.lastLine);
    assert after == before + [control];
    AppendAssociates(controls0, before, [control]);
  }

  /** One more pass appends one tagged, cleaned chunk to what the earlier
      passes wrote. */
  lemma ReadingsExtend(readings0: seq<StoredReading>, readings: seq<StoredReading>, readings': seq<StoredReading>,
                       done: seq<Chunk>, chunk: Chunk, cleaned: seq<CleanedReading>, firstId: int, id: int, c: Coercions)
    requires readings == readings0 + ReadingsFor(done, firstId, c)
    requires cleaned == CleanData(chunk.rows, c)
    requires id == firstId + |done|
    requires readings' == readings + TagReadings(id, cleaned)
    ensures readings' == readings0 + ReadingsFor(done + [chunk], firstId, c)
  {
    assert (done + [chunk])[..|done|] == done;
    assert ReadingsFor(done + [chunk], firstId, c) == ReadingsFor(done, firstId, c) + TagReadings(firstId + |done|, cleaned);
    AppendAssociates(readings0, ReadingsFor(done, firstId, c), TagReadings(firstId + |done|, cleaned));
  }

  // ---------------------------------------------------------------------
  // Properties of the passes

  /** The loop writes nothing exactly when the first read is empty: a zero
      chunk size, or a checkpoint already at or past the last row. */
  lemma PlanEmptyIff(csv: seq<RawRow>, last: int, chunkSize: nat)
    requires 0 <= last
    ensures Plan(csv, last, chunkSize) == [] <==> chunkSize == 0 || |csv| <= last
  {
  }

  /** A pass that reads the rows after checkpoint `from`: between one and
      `chunkSize` of them, consecutive, ending at the pass's own checkpoint. */
  ghost predicate ReadsAfter(csv: seq<RawRow>, from: int, chunk: Chunk, chunkSize: nat) {
    && 1 <= |chunk.rows| <= chunkSize
    && 0 <= from < chunk.lastLine <= |csv|
    && chunk.lastLine == from + |chunk.rows|
    && chunk.rows == csv[from..chunk.lastLine]
  }

  /** Each pass reads the rows right after the previous checkpoint (`last`
      for the first pass). */
  lemma {:induction false} PlanChunks(csv: seq<RawRow>, last: int, chunkSize: nat)
    requires 0 <= last
    ensures var plan := Plan(csv, last, chunkSize);
      && (|plan| > 0 ==> ReadsAfter(csv, last, plan[0], chunkSize))
      && (forall k :: 0 < k < |plan| ==> ReadsAfter(csv, plan[k - 1].lastLine, plan[k], chunkSize))
    decreases |csv| - last
  {
    var rows := ReadChunk(csv, last + 1, chunkSize);
    if rows != [] {
      var next := last + |rows|;
      PlanChunks(csv, next, chunkSize);
      var plan := Plan(csv, last, chunkSize);
      var rest := Plan(csv, next, chunkSize);
      assert plan == [Chunk(rows, next)] + rest;
      assert ReadsAfter(csv, last, plan[0], chunkSize);
      forall k | 0 < k < |plan|
        ensures ReadsAfter(csv, plan[k - 1].lastLine, plan[k], chunkSize)
      {
        assert plan[k] == rest[k - 1];
        if k > 1 {
          assert plan[k - 1] == rest[k - 2];
        }
      }
    }
  }

  /** The passes read the rows after `last` consecutively, with neither gap
      nor overlap, through to the end of the file. */
  lemma {:induction false} PlanCoversRest(csv: seq<RawRow>, last: int, chunkSize: nat)
    requires chunkSize > 0 && 0 <= last <= |csv|
    ensures AllRows(Plan(csv, last, chunkSize)) == csv[last..]
    decreases |csv| - last
  {
    var rows := ReadChunk(csv, last + 1, chunkSize);
    if rows != [] {
      var next := last + |rows|;
      PlanCoversRest(csv, next, chunkSize);
      var plan := Plan(csv, last, chunkSize);
      assert plan[1..] == Plan(csv, next, chunkSize);
      assert csv[last..] == csv[last..next] + csv[next..];
    }
  }

  /** Checkpoints strictly increase, and the last one is the file's last row. */
  lemma {:induction false} PlanCheckpoints(csv: seq<RawRow>, last: int, chunkSize: nat)
    requires chunkSize > 0 && 0 <= last < |csv|
    ensures var plan := Plan(csv, last, chunkSize);
      && |plan| > 0
      && last < plan[0].lastLine
      && (forall k, l :: 0 <= k < l < |plan| ==> plan[k].lastLine < plan[l].lastLine)
      && plan[|plan| - 1].lastLine == |csv|
    decreases |csv| - last
  {
    var rows := ReadChunk(csv, last + 1, chunkSize);
    var next := last + |rows|;
    var plan := Plan(csv, last, chunkSize);
    var rest := Plan(csv, next, chunkSize);
    assert plan == [Chunk(rows, next)] + rest;
    if next < |csv| {
      PlanCheckpoints(csv, next, chunkSize);
      forall k, l | 0 <= k < l < |plan| ensures plan[k].lastLine < plan[l].lastLine {
        assert plan[l] == rest[l - 1];
        if k > 0 {
          assert plan[k] == rest[k - 1];
        }
      }
    } else {
      PlanEmptyIff(csv, next, chunkSize);
    }
  }

  /** The checkpoints a run appends: consecutive ids from `firstId`, all
      for the run's file and version, line numbers strictly increasing from
      above the starting checkpoint, the last one the file's last row. */
  lemma ControlsForCheckpoints(csv: seq<RawRow>, last: int, chunkSize: nat, firstId: int,
                               pipelineVersion: int, inputFileName: string)
    requires chunkSize > 0 && 0 <= last < |csv|
    ensures var cs := ControlsFor(Plan(csv, last, chunkSize), firstId, pipelineVersion, inputFileName);
      && |cs| > 0
      && (forall k :: 0 <= k < |cs| ==>
            cs[k].id == firstId + k && cs[k].pipelineVersion == pipelineVersion && cs[k].inputFileName == inputFileName)
      && last < cs[0].lastLoadedLineNumber
      && (forall k, l :: 0 <= k < l < |cs| ==> cs[k].lastLoadedLineNumber < cs[l].lastLoadedLineNumber)
      && cs[|cs| - 1].lastLoadedLineNumber == |csv|
  {
    PlanCheckpoints(csv, last, chunkSize);
  }

  /** A complete run from no checkpoint over a file of `N` data rows leaves
      `N` as the latest checkpoint, and a rerun on the same file then writes
      nothing. */
  lemma CompleteRunThenRerun(csv: seq<RawRow>, chunkSize: nat)
    requires chunkSize > 0 && |csv| > 0
    ensures var plan := Plan(csv, LastLoaded(None), chunkSize);
      && |plan| > 0
      && plan[|plan| - 1].lastLine == |csv|
      && Plan(csv, plan[|plan| - 1].lastLine, chunkSize) == []
  {
    PlanCheckpoints(csv, 0, chunkSize);
    PlanEmptyIff(csv, |csv|, chunkSize);
  }
}
