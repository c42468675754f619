/**
 * The C++ driver around the scanner (minmaxopt.cpp): the three global atomics,
 * `atomic_min`/`atomic_max`, the per-file guards and merge of `process_file`,
 * the index-claiming worker loop and the empty-corpus check of `main`.
 *
 * Threads are not modelled: one worker runs the claiming loop alone, so every
 * compare-exchange sees the value it loaded. The atomics keep a ghost count of
 * the stores made to them, so that "nothing is written" can be stated.
 */
module Dispatch {
  import opened Decimal
  import opened Extrema
  import opened Scanner

  /** A `std::atomic<long>` / `std::atomic<size_t>` cell. */
  class Atomic {
    var value: int
    ghost var stores: nat

    constructor(initial: int)
      ensures value == initial && stores == 0
    {
      value := initial;
      stores := 0;
    }

    /** `load(memory_order_relaxed)`. */
    method Load() returns (v: int)
      ensures v == value
    {
      v := value;
    }

    /**
     * `compare_exchange(expected, desired)`: stores `desired` when the cell
     * holds `expected`; either way `observed` is what the cell held, which
     * the C++ call writes back into `expected`.
     */
    method CompareExchange(expected: int, desired: int) returns (exchanged: bool, observed: int)
      modifies this
      ensures observed == old(value)
      ensures exchanged <==> old(value) == expected
      ensures exchanged ==> value == desired && stores == old(stores) + 1
      ensures !exchanged ==> value == old(value) && stores == old(stores)
    {
      observed := value;
      exchanged := value == expected;
      if exchanged {
        value := desired;
        stores := stores + 1;
      }
    }

    /** `fetch_add(delta)` and the prefix `++`: returns the value before the addition. */
    method FetchAdd(delta: int) returns (previous: int)
      modifies this
      ensures previous == old(value)
      ensures value == old(value) + delta && stores == old(stores) + 1
    {
      previous := value;
      value := value + delta;
      stores := stores + 1;
    }
  }

  /** `atomic_min`: lowers `target` to `value` by a compare-exchange retry loop. */
  method AtomicMin(target: Atomic, value: int)
    modifies target
    ensures target.value == Min(old(target.value), value)
    ensures old(target.value) <= value ==> target.stores == old(target.stores)
    ensures value < old(target.value) ==> target.stores == old(target.stores) + 1
  {
    var prev := target.Load();
    var exchanged := false;
    while value < prev && !exchanged
      invariant !exchanged ==> prev == target.value == old(target.value) && target.stores == old(target.stores)
      invariant exchanged ==> value < old(target.value) && target.value == value && target.stores == old(target.stores) + 1
      decreases if exchanged then 0 else 1
    {
      exchanged, prev := target.CompareExchange(prev, value);
    }
  }

  /** `atomic_max`: raises `target` to `value` by a compare-exchange retry loop. */
  method AtomicMax(target: Atomic, value: int)
    modifies target
    ensures target.value == Max(old(target.value), value)
    ensures value <= old(target.value) ==> target.stores == old(target.stores)
    ensures old(target.value) < value ==> target.stores == old(target.stores) + 1
  {
    var prev := target.Load();
    var exchanged := false;
    while value > prev && !exchanged
      invariant !exchanged ==> prev == target.value == old(target.value) && target.stores == old(target.stores)
      invariant exchanged ==> old(target.value) < value && target.value == value && target.stores == old(target.stores) + 1
      decreases if exchanged then 0 else 1
    {
      exchanged, prev := target.CompareExchange(prev, value);
    }
  }

  /** The program's globals `globalMin`, `globalMax` and `processedFiles`. */
  class GlobalExtremum {
    const globalMin: Atomic
    const globalMax: Atomic
    const processedFiles: Atomic

    /** The three globals are distinct cells. */
    predicate Valid() {
      globalMin != globalMax && globalMin != processedFiles && globalMax != processedFiles
    }

    /** The pair the globals hold. */
    function Current(): Pair
      reads this, globalMin, globalMax
    {
      Pair(globalMin.value, globalMax.value)
    }

    /** Static initialisation: `LONG_MAX`, `LONG_MIN` and 0. */
    constructor()
      ensures Valid() && fresh(globalMin) && fresh(globalMax) && fresh(processedFiles)
      ensures Current() == Sentinels && processedFiles.value == 0
    {
      globalMin := new Atomic(LongMax);
      globalMax := new Atomic(LongMin);
      processedFiles := new Atomic(0);
    }
  }

  /**
   * A file as the system calls see it: `open` fails, or it opens with its
   * bytes (of which `fs::file_size` gives the count) and `mmap` either
   * succeeds or fails.
   */
  datatype FileOnDisk = Unopenable | Opened(contents: seq<byte>, mappable: bool)

  /** Passes the three guards of `process_file`: opened, not empty, mapped. */
  predicate Scannable(f: FileOnDisk) {
    f.Opened? && f.contents != [] && f.mappable
  }

  /** The local pair `process_file` merges for a scannable file. */
  function FilePair(f: FileOnDisk): Pair
    requires Scannable(f)
  {
    LocalExtremum(f.contents)
  }

  /** The globals after the files are processed in order, starting from `p`; skipped files merge nothing. */
  function CorpusFold(p: Pair, files: seq<FileOnDisk>): (r: Pair)
    ensures r.min <= p.min && p.max <= r.max
  {
    if files == [] then p
    else
      var q := CorpusFold(p, files[..|files| - 1]);
      var last := files[|files| - 1];
      if Scannable(last) then Merge(q, FilePair(last)) else q
  }

  /** The pair the program reports for a corpus. */
  function CorpusExtremum(files: seq<FileOnDisk>): Pair {
    CorpusFold(Sentinels, files)
  }

  /** How many files pass the guards, which is what `processedFiles` counts. */
  function ScannableCount(files: seq<FileOnDisk>): (n: nat)
    ensures n <= |files|
  {
    if files == [] then 0
    else ScannableCount(files[..|files| - 1]) + (if Scannable(files[|files| - 1]) then 1 else 0)
  }

  /**
   * `process_file`: a file that fails a guard changes no global; otherwise
   * its scanned pair is merged into the globals and `processedFiles` grows by one.
   */
  method ProcessFile(g: GlobalExtremum, file: FileOnDisk)
    requires g.Valid()
    modifies g.globalMin, g.globalMax, g.processedFiles
    ensures g.Current() == if Scannable(file) then Merge(old(g.Current()), FilePair(file)) else old(g.Current())
    ensures g.processedFiles.value == old(g.processedFiles.value) + if Scannable(file) then 1 else 0
    ensures !Scannable(file) ==> unchanged(g.globalMin, g.globalMax, g.processedFiles)
  {
    if file.Unopenable? {
      return;
    }
    if |file.contents| == 0 {
      return;
    }
    if !file.mappable {
      return;
    }
    var localMin, localMax := Scan(file.contents);
    AtomicMin(g.globalMin, localMin);
    AtomicMax(g.globalMax, localMax);
    var _ := g.processedFiles.FetchAdd(1);
  }

  /** The indices 0, 1, ..., n - 1 in order. */
  function Indices(n: nat): (r: seq<nat>)
    ensures |r| == n && forall i :: 0 <= i < n ==> r[i] == i
  {
    if n == 0 then [] else Indices(n - 1) + [n - 1]
  }

  /**
   * The `worker` lambda run by a single thread: claim the next index with
   * `fetch_add(1)` until it reaches `files.size()`, processing each claimed file.
   */
  method Worker(g: GlobalExtremum, files: seq<FileOnDisk>, fileIndex: Atomic) returns (ghost claimed: seq<nat>)
    requires g.Valid()
    requires fileIndex != g.globalMin && fileIndex != g.globalMax && fileIndex != g.processedFiles
    requires fileIndex.value == 0
    modifies g.globalMin, g.globalMax, g.processedFiles, fileIndex
    ensures claimed == Indices(|files|)
    ensures fileIndex.value == |files| + 1
    ensures g.Current() == CorpusFold(old(g.Current()), files)
    ensures g.processedFiles.value == old(g.processedFiles.value) + ScannableCount(files)
  {
    claimed := [];
    while true
      invariant 0 <= fileIndex.value <= |files|
      invariant claimed == Indices(fileIndex.value)
      invariant g.Current() == CorpusFold(old(g.Current()), files[..fileIndex.value])
      invariant g.processedFiles.value == old(g.processedFiles.value) + ScannableCount(files[..fileIndex.value])
      decreases |files| - fileIndex.value
    {
      var idx := fileIndex.FetchAdd(1);
      if idx >= |files| {
        break;
      }
      CorpusFoldSnoc(old(g.Current()), files, idx);
      ProcessFile(g, files[idx]);
      claimed := claimed + [idx];
    }
    assert files[..|files|] == files;
  }

  /** Processing one more file of the list extends the fold and the count by that file. */
  lemma CorpusFoldSnoc(p: Pair, files: seq<FileOnDisk>, i: nat)
    requires i < |files|
    ensures CorpusFold(p, files[..i + 1]) == if Scannable(files[i]) then Merge(CorpusFold(p, files[..i]), FilePair(files[i])) else CorpusFold(p, files[..i])
    ensures ScannableCount(files[..i + 1]) == ScannableCount(files[..i]) + if Scannable(files[i]) then 1 else 0
  {
    assert files[..i + 1][..i] == files[..i];
  }

  /** What `main` ends with: the early exit for an empty list, or the printed pair and the final file count. */
  datatype Report = NoFilesToProcess | Extrema(min: int, max: int, processed: nat)

  /**
   * `main` after the directory listing: the empty-corpus check, then one
   * worker over all files, then the two loads that are printed.
   */
  method FindGlobalExtrema(files: seq<FileOnDisk>) returns (report: Report)
    ensures files == [] <==> report == NoFilesToProcess
    ensures files != [] ==> report == Extrema(CorpusExtremum(files).min, CorpusExtremum(files).max, ScannableCount(files))
  {
    var g := new GlobalExtremum();
    if |files| == 0 {
      return NoFilesToProcess;
    }
    var fileIndex := new Atomic(0);
    ghost var claimed := Worker(g, files, fileIndex);
    var min := g.globalMin.Load();
    var max := g.globalMax.Load();
    var processed := g.processedFiles.Load();
    report := Extrema(min, max, processed);
  }

  /** The global pair is bounded by the starting pair and by every merged file pair. */
  lemma {:induction false} CorpusFoldBounds(p: Pair, files: seq<FileOnDisk>)
    ensures var r := CorpusFold(p, files);
      && r.min <= p.min && p.max <= r.max
      && (forall i :: 0 <= i < |files| && Scannable(files[i]) ==> r.min <= FilePair(files[i]).min && FilePair(files[i]).max <= r.max)
  {
    if files != [] {
      var init := files[..|files| - 1];
      forall i | 0 <= i < |files| - 1
        ensures files[i] == init[i]
      {
      }
      CorpusFoldBounds(p, init);
    }
  }

  /** Each end of the global pair is the starting pair's or that of a merged file pair. */
  lemma {:induction false} CorpusFoldAttained(p: Pair, files: seq<FileOnDisk>)
    ensures var r := CorpusFold(p, files);
      && (r.min == p.min || exists i :: 0 <= i < |files| && Scannable(files[i]) && r.min == FilePair(files[i]).min)
      && (r.max == p.max || exists i :: 0 <= i < |files| && Scannable(files[i]) && r.max == FilePair(files[i]).max)
  {
    if files != [] {
      var n := |files| - 1;
      var init := files[..n];
      CorpusFoldAttained(p, init);
      var q := CorpusFold(p, init);
      var r := CorpusFold(p, files);
      if r.min != p.min {
        if r.min == q.min {
          var i :| 0 <= i < n && Scannable(init[i]) && q.min == FilePair(init[i]).min;
          assert files[i] == init[i];
        } else {
          assert Scannable(files[n]) && r.min == FilePair(files[n]).min;
        }
      }
      if r.max != p.max {
        if r.max == q.max {
          var i :| 0 <= i < n && Scannable(init[i]) && q.max == FilePair(init[i]).max;
          assert files[i] == init[i];
        } else {
          assert Scannable(files[n]) && r.max == FilePair(files[n]).max;
        }
      }
    }
  }

  /**
   * The reported pair does not depend on the order in which files are
   * claimed and merged, nor on a file appearing more than once: any two
   * lists holding the same files give the same pair.
   */
  lemma CorpusOrderIndependent(a: seq<FileOnDisk>, b: seq<FileOnDisk>)
    requires forall f :: f in a <==> f in b
    ensures CorpusExtremum(a) == CorpusExtremum(b)
  {
    CorpusFoldBounds(Sentinels, a);
    CorpusFoldBounds(Sentinels, b);
    CorpusFoldAttained(Sentinels, a);
    CorpusFoldAttained(Sentinels, b);
    var ra, rb := CorpusExtremum(a), CorpusExtremum(b);
    forall i | 0 <= i < |a| && Scannable(a[i])
      ensures rb.min <= FilePair(a[i]).min && FilePair(a[i]).max <= rb.max
    {
      assert a[i] in b;
    }
    forall i | 0 <= i < |b| && Scannable(b[i])
      ensures ra.min <= FilePair(b[i]).min && FilePair(b[i]).max <= ra.max
    {
      assert b[i] in a;
    }
  }

  /** Every value the scans of the scannable files record, file after file. */
  function AllTokens(files: seq<FileOnDisk>): seq<int> {
    if files == [] then []
    else AllTokens(files[..|files| - 1]) + (if Scannable(files[|files| - 1]) then Tokens(files[|files| - 1].contents) else [])
  }

  /** Merging per-file pairs gives the pair of all recorded values, as if one scan had read every file. */
  lemma {:induction false} CorpusExtremumIsTokenExtremum(files: seq<FileOnDisk>)
    ensures CorpusExtremum(files) == FoldValues(Sentinels, AllTokens(files))
  {
    if files != [] {
      var init := files[..|files| - 1];
      var last := files[|files| - 1];
      CorpusExtremumIsTokenExtremum(init);
      var before := AllTokens(init);
      if Scannable(last) {
        var ts := Tokens(last.contents);
        assert AllTokens(files) == before + ts;
        var q := FoldValues(Sentinels, before);
        assert q.min <= LongMax && LongMin <= q.max;
        FoldValuesAppend(Sentinels, before, ts);
        FoldValuesIsMerge(q, ts);
        assert CorpusExtremum(files) == Merge(CorpusExtremum(init), FilePair(last));
      } else {
        assert AllTokens(files) == before + [];
        assert before + [] == before;
      }
    }
  }
}
