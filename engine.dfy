/**
 * The batching loop of `Main`: start indices 0, b, 2b, ... below the row
 * count, one `GetBatchData` copy per start, one `ProcessBatchData` run per copy.
 * The runs are concurrent in the program and sequential here; each owns its
 * copy, so their order does not matter.
 */
module Engine {
  import opened Batching
  import opened Reconcile

  /** The batch size fixed in `Main`. */
  const BATCH_SIZE: nat := 10

  function ProcessEach(batches: seq<seq<Row>>, dir: Directory, rule: ExtractionRule): seq<seq<Row>> {
    seq(|batches|, k requires 0 <= k < |batches| => ProcessRows(batches[k], dir, rule))
  }

  lemma ProcessEachSnoc(batches: seq<seq<Row>>, rows: seq<Row>, dir: Directory, rule: ExtractionRule)
    ensures ProcessEach(batches + [rows], dir, rule) == ProcessEach(batches, dir, rule) + [ProcessRows(rows, dir, rule)]
  {
  }

  /** Processing batch by batch and concatenating is processing the whole table row by row. */
  lemma {:induction false} FlattenProcessEach(batches: seq<seq<Row>>, dir: Directory, rule: ExtractionRule)
    ensures Flatten(ProcessEach(batches, dir, rule)) == ProcessRows(Flatten(batches), dir, rule)
    decreases |batches|
  {
    if batches != [] {
      var each := ProcessEach(batches, dir, rule);
      assert each == [ProcessRows(batches[0], dir, rule)] + ProcessEach(batches[1..], dir, rule);
      FlattenCons(ProcessRows(batches[0], dir, rule), ProcessEach(batches[1..], dir, rule));
      FlattenProcessEach(batches[1..], dir, rule);
      ProcessRowsAppend(batches[0], Flatten(batches[1..]), dir, rule);
    }
  }

  /** One task of line 59: `ProcessBatchData` on a batch table of its own. */
  method RunBatchTask(rows: seq<Row>, dir: Directory, rule: ExtractionRule) returns (processed: seq<Row>)
    ensures processed == ProcessRows(rows, dir, rule)
  {
    var batch := new Row[|rows|](k requires 0 <= k < |rows| => rows[k]);
    assert batch[..] == rows;
    ProcessBatch(batch, dir, rule);
    processed := batch[..];
  }

  /**
   * Lines 52-63 for a given batch size: the start indices the loop visits and
   * the batch tables the tasks leave behind. The table itself is only read;
   * the tasks' updates stay in their copies.
   */
  method ReconcileInBatches(table: array<Row>, batchSize: nat, dir: Directory, rule: ExtractionRule)
    returns (starts: seq<nat>, results: seq<seq<Row>>)
    requires batchSize > 0
    ensures |starts| == |results| == |Batches(table[..], batchSize)|
    ensures starts == StartsFrom(table.Length, 0, batchSize)
    ensures results == ProcessEach(Batches(table[..], batchSize), dir, rule)
    ensures Flatten(results) == ProcessRows(table[..], dir, rule)
  {
    starts, results := [], [];
    ghost var s := table[..];
    ghost var done: seq<seq<Row>> := [];
    var i := 0;
    while i < table.Length
      invariant StartsFrom(table.Length, 0, batchSize) == starts + StartsFrom(table.Length, i, batchSize)
      invariant |done| == |results|
      invariant Batches(s, batchSize) == done + BatchesFrom(s, i, batchSize)
      invariant results == ProcessEach(done, dir, rule)
    {
      var rows := GetBatchData(table, i, batchSize);
      var processed := RunBatchTask(rows, dir, rule);
      BatchStep(s, i, batchSize, done);
      StartStep(table.Length, i, batchSize, starts);
      ProcessEachSnoc(done, rows, dir, rule);
      done := done + [rows];
      starts := starts + [i];
      results := results + [processed];
      i := i + batchSize;
    }
    BatchesDone(s, i, batchSize, done, dir, rule);
    StartsFromBatches(s, 0, batchSize);
  }

  lemma BatchStep(s: seq<Row>, i: nat, size: nat, done: seq<seq<Row>>)
    requires size > 0 && i < |s|
    requires Batches(s, size) == done + BatchesFrom(s, i, size)
    ensures Batches(s, size) == (done + [Window(s, i, size)]) + BatchesFrom(s, i + size, size)
  {
  }

  lemma StartStep(n: nat, i: nat, size: nat, starts: seq<nat>)
    requires size > 0 && i < n
    requires StartsFrom(n, 0, size) == starts + StartsFrom(n, i, size)
    ensures StartsFrom(n, 0, size) == (starts + [i]) + StartsFrom(n, i + size, size)
  {
  }

  lemma BatchesDone(s: seq<Row>, i: nat, size: nat, done: seq<seq<Row>>, dir: Directory, rule: ExtractionRule)
    requires size > 0 && i >= |s|
    requires Batches(s, size) == done + BatchesFrom(s, i, size)
    ensures done == Batches(s, size)
    ensures Flatten(ProcessEach(done, dir, rule)) == ProcessRows(s, dir, rule)
  {
    FlattenProcessEach(done, dir, rule);
    BatchesFlatten(s, size);
  }

  /**
   * `Main` between loading and saving, as written: ceil(n / 10) batches, each
   * coming back exactly as `GetBatchData` copied it, so together they hold the
   * rows of the table, none changed.
   */
  method CompareEmployeeData(table: array<Row>, dir: Directory) returns (results: seq<seq<Row>>)
    ensures |results| == (table.Length + BATCH_SIZE - 1) / BATCH_SIZE
    ensures Flatten(results) == table[..]
    ensures results == Batches(table[..], BATCH_SIZE)
  {
    var starts;
    starts, results := ReconcileInBatches(table, BATCH_SIZE, dir, AsWritten);
    BatchCount(table[..], BATCH_SIZE);
    ProcessRowsAsWritten(table[..], dir);
    forall k | 0 <= k < |results| ensures results[k] == Batches(table[..], BATCH_SIZE)[k] {
      ProcessRowsAsWritten(Batches(table[..], BATCH_SIZE)[k], dir);
    }
  }
}
