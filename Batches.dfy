/**
 * The driver of the Java program (FindMinMaxInFiles.java): `main` cuts the
 * file list into batches of `BATCH_SIZE` files, `ProcessBatch.compute` folds
 * the pairs of the files of one batch, and `main` folds the batch pairs, in
 * list order, into the global pair.
 *
 * The batches run one after another here. An exception escaping
 * `findMinMaxInFile` ends its batch's `compute`, and `future.get()` rethrows
 * it in `main`; the first failed batch in list order decides the exception.
 */
module Batches {
  import opened Extrema
  import opened ChunkedReader
  import opened Decimal

  /** `BATCH_SIZE`. */
  const BatchSize: nat := 10

  /** Folds one more result into a running outcome with `Math.min`/`Math.max`; an exception already raised stands. */
  function MergeOutcome(o: Outcome, r: Outcome): (m: Outcome)
    ensures o.Err? ==> m == o
    ensures m.Ok? <==> o.Ok? && r.Ok?
    ensures m.Ok? ==> m.pair == Merge(o.pair, r.pair)
  {
    match o
    case Err(_) => o
    case Ok(p) =>
      match r
      case Err(_) => r
      case Ok(q) => Ok(Merge(p, q))
  }

  /** Folds the results `rs` into `o` from left to right. */
  function FoldOutcomes(o: Outcome, rs: seq<Outcome>): (r: Outcome)
    ensures r.Ok? ==> o.Ok? && forall i :: 0 <= i < |rs| ==> rs[i].Ok?
    ensures r.Ok? ==> r.pair.min <= o.pair.min && o.pair.max <= r.pair.max
  {
    if rs == [] then o else MergeOutcome(FoldOutcomes(o, rs[..|rs| - 1]), rs[|rs| - 1])
  }

  /** The result of `findMinMaxInFile` for every file, in order. */
  function Reads(files: seq<MappedFile>): seq<Outcome> {
    Map(ReadFile, files)
  }

  /** `f` applied to every element, in order. */
  function Map<T, U>(f: T -> U, s: seq<T>): (r: seq<U>)
    ensures |r| == |s| && forall i :: 0 <= i < |s| ==> r[i] == f(s[i])
  {
    seq(|s|, i requires 0 <= i < |s| => f(s[i]))
  }

  /** What `ProcessBatch.compute` returns for a batch. */
  function BatchResult(batch: seq<MappedFile>): (r: Outcome)
    ensures Sound(r)
    ensures r.Ok? ==> forall i :: 0 <= i < |batch| ==> ReadFile(batch[i]).Ok?
  {
    ReadsSound(batch);
    FoldOutcomesIsMerge(Sentinels, Reads(batch));
    FoldOutcomes(Ok(Sentinels), Reads(batch))
  }

  /** The future of every batch, in order. */
  function BatchResults(batches: seq<seq<MappedFile>>): seq<Outcome> {
    if batches == [] then [] else BatchResults(batches[..|batches| - 1]) + [BatchResult(batches[|batches| - 1])]
  }

  /** The batches put back together. */
  function Flatten(batches: seq<seq<MappedFile>>): seq<MappedFile> {
    if batches == [] then [] else Flatten(batches[..|batches| - 1]) + batches[|batches| - 1]
  }

  /** The pair of the whole folder, file by file, as if there were one batch. */
  function GlobalResult(files: seq<MappedFile>): (r: Outcome)
    ensures Sound(r)
    ensures r.Ok? ==> forall i :: 0 <= i < |files| ==> ReadFile(files[i]).Ok?
  {
    ReadsSound(files);
    FoldOutcomesIsMerge(Sentinels, Reads(files));
    FoldOutcomes(Ok(Sentinels), Reads(files))
  }

  /** An outcome a reader can produce: an exception, or a pair within the sentinels. */
  predicate Sound(o: Outcome) {
    o.Err? || WithinSentinels(o.pair)
  }

  /** Merging outcomes is associative, and the sentinel pair is its unit on sound outcomes. */
  lemma MergeOutcomeMonoid(a: Outcome, b: Outcome, c: Outcome)
    ensures MergeOutcome(MergeOutcome(a, b), c) == MergeOutcome(a, MergeOutcome(b, c))
    ensures Sound(a) ==> MergeOutcome(Ok(Sentinels), a) == a && MergeOutcome(a, Ok(Sentinels)) == a
    ensures Sound(a) && Sound(b) ==> Sound(MergeOutcome(a, b))
  {
    if a.Ok? && b.Ok? && c.Ok? {
      MergeIsSemilattice(a.pair, b.pair, c.pair);
    }
    if a.Ok? {
      MergeIsSemilattice(a.pair, Sentinels, Sentinels);
      MergeIsSemilattice(Sentinels, a.pair, Sentinels);
    }
  }

  /** Folding two runs of results is folding the second into the fold of the first. */
  lemma {:induction false} FoldOutcomesAppend(o: Outcome, a: seq<Outcome>, b: seq<Outcome>)
    ensures FoldOutcomes(o, a + b) == FoldOutcomes(FoldOutcomes(o, a), b)
    decreases |b|
  {
    if b == [] {
      assert a + b == a;
    } else {
      assert (a + b)[..|a + b| - 1] == a + b[..|b| - 1];
      FoldOutcomesAppend(o, a, b[..|b| - 1]);
    }
  }

  /** Once an exception is raised no later result changes it. */
  lemma {:induction false} FoldOutcomesFailed(f: Failure, rs: seq<Outcome>)
    ensures FoldOutcomes(Err(f), rs) == Err(f)
  {
    if rs != [] {
      FoldOutcomesFailed(f, rs[..|rs| - 1]);
    }
  }

  /** The first exception in order, after results that were all pairs, is the outcome of the whole fold. */
  lemma FoldOutcomesStops(o: Outcome, rs: seq<Outcome>, i: nat)
    requires i < |rs| && FoldOutcomes(o, rs[..i]).Ok? && rs[i].Err?
    ensures FoldOutcomes(o, rs) == rs[i]
  {
    assert rs[..i + 1][..i] == rs[..i];
    FoldOutcomesAppend(o, rs[..i + 1], rs[i + 1..]);
    FoldOutcomesFailed(rs[i].failure, rs[i + 1..]);
    assert rs[..i + 1] + rs[i + 1..] == rs;
  }

  /**
   * Folding sound results into a pair within the sentinels is merging that
   * pair with their fold from the sentinels, which is sound itself: a batch
   * can be folded on its own and merged later.
   */
  lemma {:induction false} FoldOutcomesIsMerge(p: Pair, rs: seq<Outcome>)
    requires WithinSentinels(p)
    requires forall i :: 0 <= i < |rs| ==> Sound(rs[i])
    ensures FoldOutcomes(Ok(p), rs) == MergeOutcome(Ok(p), FoldOutcomes(Ok(Sentinels), rs))
    ensures Sound(FoldOutcomes(Ok(Sentinels), rs))
    decreases |rs|
  {
    if rs == [] {
      MergeOutcomeMonoid(Ok(p), Ok(p), Ok(p));
    } else {
      var init, last := rs[..|rs| - 1], rs[|rs| - 1];
      FoldOutcomesIsMerge(p, init);
      var x := FoldOutcomes(Ok(Sentinels), init);
      MergeOutcomeMonoid(Ok(p), x, last);
      MergeOutcomeMonoid(x, last, last);
    }
  }

  /** Every result of the reader is sound. */
  lemma ReadsSound(files: seq<MappedFile>)
    ensures forall i :: 0 <= i < |Reads(files)| ==> Sound(Reads(files)[i])
  {
    forall i | 0 <= i < |files|
      ensures Sound(Reads(files)[i])
    {
      assert Reads(files)[i] == ReadWith(files[i], false);
    }
  }

  /** The results of two runs of files are the results of each. */
  lemma ReadsAppend(a: seq<MappedFile>, b: seq<MappedFile>)
    ensures Reads(a + b) == Reads(a) + Reads(b)
  {
    MapAppend(ReadFile, a, b);
  }

  /** Applying `f` to every element of a concatenation applies it to each part. */
  lemma MapAppend<T, U>(f: T -> U, a: seq<T>, b: seq<T>)
    ensures Map(f, a + b) == Map(f, a) + Map(f, b)
  {
    var x, y, z := Map(f, a + b), Map(f, a), Map(f, b);
    forall k | 0 <= k < |x|
      ensures x[k] == (y + z)[k]
    {
      if k >= |a| {
        assert (a + b)[k] == b[k - |a|];
      }
    }
  }

  /**
   * Batching does not change the result: folding the batch results of any
   * partition of a file list is folding the results of its files one by one.
   */
  lemma {:induction false} BatchingPreservesResult(batches: seq<seq<MappedFile>>)
    ensures FoldOutcomes(Ok(Sentinels), BatchResults(batches)) == GlobalResult(Flatten(batches))
    ensures Sound(GlobalResult(Flatten(batches)))
    decreases |batches|
  {
    if batches == [] {
      assert Reads([]) == [];
    } else {
      var init, last := batches[..|batches| - 1], batches[|batches| - 1];
      BatchingPreservesResult(init);
      assert BatchResults(batches) == BatchResults(init) + [BatchResult(last)];
      var g := GlobalResult(Flatten(init));
      ReadsAppend(Flatten(init), last);
      FoldOutcomesAppend(Ok(Sentinels), Reads(Flatten(init)), Reads(last));
      ReadsSound(last);
      FoldOutcomesIsMerge(Sentinels, Reads(last));
      MergeOutcomeMonoid(g, BatchResult(last), BatchResult(last));
      match g
      case Err(f) =>
        FoldOutcomesFailed(f, Reads(last));
      case Ok(p) =>
        FoldOutcomesIsMerge(p, Reads(last));
    }
  }

  /**
   * `main`'s partition: `subList(i, min(i + BATCH_SIZE, size))` for
   * `i = 0, 10, 20, ...`; the batches are non-empty, all but the last are
   * full, and together they are the file list in order.
   */
  method PartitionBatches(files: seq<MappedFile>) returns (batches: seq<seq<MappedFile>>)
    ensures Flatten(batches) == files
    ensures forall k :: 0 <= k < |batches| ==> 0 < |batches[k]| <= BatchSize
    ensures forall k :: 0 <= k < |batches| - 1 ==> |batches[k]| == BatchSize
  {
    batches := [];
    var i := 0;
    while i < |files|
      invariant i == BatchSize * |batches|
      invariant Flatten(batches) == files[..Min(i, |files|)]
      invariant forall k :: 0 <= k < |batches| ==> 0 < |batches[k]| <= BatchSize
      invariant forall k :: 0 <= k < |batches| - 1 ==> |batches[k]| == BatchSize
      invariant i <= |files| ==> forall k :: 0 <= k < |batches| ==> |batches[k]| == BatchSize
      decreases |files| - i
    {
      var batch := files[i..Min(i + BatchSize, |files|)];
      assert Flatten(batches + [batch]) == Flatten(batches) + batch by {
        assert (batches + [batch])[..|batches|] == batches;
      }
      assert files[..i] + batch == files[..Min(i + BatchSize, |files|)];
      batches := batches + [batch];
      i := i + BatchSize;
    }
    assert files[..Min(i, |files|)] == files;
  }

  /** `ProcessBatch.compute`: folds the pair of every file of the batch, in order. */
  method ComputeBatch(batch: seq<MappedFile>) returns (result: Outcome)
    ensures result == BatchResult(batch)
  {
    ghost var rs := Reads(batch);
    var batchMin, batchMax := LongMax, LongMin;
    for i := 0 to |batch|
      invariant FoldOutcomes(Ok(Sentinels), rs[..i]) == Ok(Pair(batchMin, batchMax))
    {
      var minMax := FindMinMaxInFile(batch[i]);
      ComputeBatchStep(rs, i, Pair(batchMin, batchMax));
      if minMax.Err? {
        return minMax;
      }
      batchMin := Min(batchMin, minMax.pair.min);
      batchMax := Max(batchMax, minMax.pair.max);
    }
    assert rs[..|batch|] == rs;
    result := Ok(Pair(batchMin, batchMax));
  }

  /** One iteration of `compute`: the next result is merged in, or its exception is the batch's result. */
  lemma ComputeBatchStep(rs: seq<Outcome>, i: nat, acc: Pair)
    requires i < |rs| && FoldOutcomes(Ok(Sentinels), rs[..i]) == Ok(acc)
    ensures rs[i].Ok? ==> FoldOutcomes(Ok(Sentinels), rs[..i + 1]) == Ok(Merge(acc, rs[i].pair))
    ensures rs[i].Err? ==> FoldOutcomes(Ok(Sentinels), rs) == rs[i]
  {
    assert rs[..i + 1][..i] == rs[..i];
    if rs[i].Err? {
      FoldOutcomesStops(Ok(Sentinels), rs, i);
    }
  }

  /** The futures of one more batch. */
  lemma BatchResultsPrefix(batches: seq<seq<MappedFile>>, k: nat)
    requires k < |batches|
    ensures BatchResults(batches[..k + 1]) == BatchResults(batches[..k]) + [BatchResult(batches[k])]
  {
    assert batches[..k + 1][..k] == batches[..k];
  }

  /** `main`'s first loop: one `ProcessBatch` future per batch, in order. */
  method RunBatches(batches: seq<seq<MappedFile>>) returns (futures: seq<Outcome>)
    ensures futures == BatchResults(batches)
  {
    futures := [];
    for k := 0 to |batches|
      invariant futures == BatchResults(batches[..k])
    {
      var r := ComputeBatch(batches[k]);
      BatchResultsPrefix(batches, k);
      futures := futures + [r];
    }
    assert batches[..|batches|] == batches;
  }

  /** `main`'s second loop: `future.get()` on every batch in order, folding the batch pairs into the global pair. */
  method FoldFutures(futures: seq<Outcome>) returns (result: Outcome)
    ensures result == FoldOutcomes(Ok(Sentinels), futures)
  {
    var globalMin, globalMax := LongMax, LongMin;
    for k := 0 to |futures|
      invariant FoldOutcomes(Ok(Sentinels), futures[..k]) == Ok(Pair(globalMin, globalMax))
    {
      var r := futures[k];
      assert futures[..k + 1][..k] == futures[..k];
      if r.Err? {
        FoldOutcomesStops(Ok(Sentinels), futures, k);
        return r;
      }
      globalMin := Min(globalMin, r.pair.min);
      globalMax := Max(globalMax, r.pair.max);
    }
    assert futures[..|futures|] == futures;
    result := Ok(Pair(globalMin, globalMax));
  }

  /**
   * `main`: partitions the files, computes every batch, then folds the batch
   * pairs in list order; the first failed batch rethrows its exception, and an
   * empty folder gives the sentinel pair.
   */
  method FindMinMaxInFiles(files: seq<MappedFile>) returns (result: Outcome)
    ensures result == GlobalResult(files)
    ensures result.Ok? ==> WithinSentinels(result.pair)
  {
    var batches := PartitionBatches(files);
    var futures := RunBatches(batches);
    result := FoldFutures(futures);
    BatchingPreservesResult(batches);
  }

  /** The values of a run of files, in order. */
  function AllValues(vss: seq<seq<int>>): seq<int> {
    if vss == [] then [] else AllValues(vss[..|vss| - 1]) + vss[|vss| - 1]
  }

  /** The folder's result is the result of all files but the last, merged with the last one's. */
  lemma GlobalResultSnoc(files: seq<MappedFile>)
    requires files != []
    ensures GlobalResult(files) == MergeOutcome(GlobalResult(files[..|files| - 1]), ReadFile(files[|files| - 1]))
  {
    assert Reads(files)[..|files| - 1] == Reads(files[..|files| - 1]);
  }

  /** Folding all values from the sentinels is merging the fold of the earlier ones with the fold of the last run. */
  lemma AllValuesSnoc(vss: seq<seq<int>>)
    requires vss != []
    ensures FoldValues(Sentinels, AllValues(vss))
         == Merge(FoldValues(Sentinels, AllValues(vss[..|vss| - 1])), FoldValues(Sentinels, vss[|vss| - 1]))
  {
    var before := FoldValues(Sentinels, AllValues(vss[..|vss| - 1]));
    FoldValuesAppend(Sentinels, AllValues(vss[..|vss| - 1]), vss[|vss| - 1]);
    FoldValuesIsMerge(before, vss[|vss| - 1]);
  }

  /** When every file reads as the pair of its values, the folder reads as the pair of all of them. */
  lemma {:induction false} CorpusOfValues(files: seq<MappedFile>, vss: seq<seq<int>>)
    requires |files| == |vss|
    requires forall i :: 0 <= i < |files| ==> ReadFile(files[i]) == Ok(FoldValues(Sentinels, vss[i]))
    ensures GlobalResult(files) == Ok(FoldValues(Sentinels, AllValues(vss)))
    decreases |files|
  {
    if files != [] {
      var n := |files|;
      CorpusOfValues(files[..n - 1], vss[..n - 1]);
      GlobalResultSnoc(files);
      AllValuesSnoc(vss);
    }
  }

  /**
   * A folder of generated files, one 64-bit value per line, none of them
   * one byte longer than a multiple of the buffer size, gives the pair of all
   * the values of all the files.
   */
  lemma GeneratedCorpus(vss: seq<seq<int>>)
    requires forall i, j :: 0 <= i < |vss| && 0 <= j < |vss[i]| ==> InLongRange(vss[i][j])
    requires forall i :: 0 <= i < |vss| ==> |Render(vss[i])| % BufferSize != 1
    ensures GlobalResult(seq(|vss|, i requires 0 <= i < |vss| => Mapped(Render(vss[i]))))
         == Ok(FoldValues(Sentinels, AllValues(vss)))
  {
    var files := seq(|vss|, i requires 0 <= i < |vss| => Mapped(Render(vss[i])));
    forall i | 0 <= i < |files|
      ensures ReadFile(files[i]) == Ok(FoldValues(Sentinels, vss[i]))
    {
      GeneratedFileRead(vss[i]);
    }
    CorpusOfValues(files, vss);
  }
}
