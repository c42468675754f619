# Min/max over a folder of number files, modelled in Dafny

The repository answers one question as fast as it can: given a folder of text
files, each holding one 64-bit integer per line, what are the smallest and the
largest value in the whole folder? It has two independent implementations, and
this project models the sequential core of both.

- **The C++ program** (`MaxMinOpt-CPP/minmaxopt.cpp`) maps each file into
  memory. A byte scanner walks the buffer with a pointer: it reads an optional
  `-`, accumulates a digit run with `num * 10 + d` in a `long`, negates, folds
  the value into a local (min, max) pair and skips the bytes that are neither
  digits nor `-`. The local pair is merged into two global atomics by
  compare-exchange retry loops (`atomic_min`/`atomic_max`). Files that fail to
  open, are empty or fail to map are skipped. A worker claims file indices
  with `fetch_add` until the list is exhausted.
- **The Java program** (`FindMinMaxInFiles.java`) copies each mapped file out in
  chunks of 65 536 bytes. It splits every chunk on `\n`, carries a partial last
  line into the next chunk (`leftover`), and parses every line with
  `Long.parseLong(line.trim())`. The file list is cut into batches of 10; a
  batch folds its files' pairs, and `main` folds the batch pairs into the
  global pair.

## Modules

| file | what it holds |
|---|---|
| `Extrema.dfy` | the `long` range, the (min, max) pair, the sentinel pair `(LONG_MAX, LONG_MIN)`, the left-to-right fold of values and the merge of pairs |
| `Decimal.dfy` | ASCII digits, the decimal value of a digit run and its positional form, `Long.toString` as bytes, and the generator's file format (one value and `\n` per line) |
| `Scanner.dfy` | the C++ scan loop: the function `Tokens` giving the values one pass records, and the methods `AccumulateDigits`, `ReadValue`, `SkipDelimiters` and `Scan` proved against it |
| `Dispatch.dfy` | the C++ atomics as a class, `atomic_min`/`atomic_max`, `process_file`'s guards and merge, the worker's claiming loop and the empty-corpus check of `main` |
| `LineSplit.dfy` | cutting text at newlines, Java's `String.split("\n")` (trailing empty strings dropped), and the lines of a whole file |
| `LongParse.dfy` | `String.trim()` and `Long.parseLong` on ASCII text |
| `ChunkedReader.dfy` | `findMinMaxInFile`: the chunk loop as written (`Step`, `Drive`, `Finish`), its imperative form (`ReadChunk`, `ReadChunks`, `FindMinMaxInFile`), and its comparison with reading the whole file at once |
| `Batches.dfy` | the batch partition, `ProcessBatch.compute` and the global fold of `main` |

Modelling choices:

- **C++ overflow.** The digit accumulator overflows without a check, and the
  generator writes values down to -2^63, whose digits overflow before the
  negation. The model makes two's-complement wrap-around explicit (`Wrap64`)
  after every `num * 10 + d` and after the negation. C++ leaves signed
  overflow undefined, so this models what the machine does, not a language
  guarantee. `TokenValueIsWrappedValue` shows that every token whose value fits
  in a `long`, -2^63 included, is recorded exactly.
- **Exceptions.** Java exceptions become values. A `NumberFormatException` from
  the parse and an `ArrayIndexOutOfBoundsException` from `numbers[0]` escape
  `findMinMaxInFile`, end the batch, and are rethrown by `future.get()` in
  `main`; the model returns `Err` and the first failure in file order wins.
  An `IOException` from opening or mapping a file is caught and yields the
  sentinel pair.
- **Bytes, not characters.** Chunks are decoded as UTF-8, which is the identity
  on ASCII; the model works on bytes.
- **Inputs for I/O.** A file is a value. On the C++ side it either fails to
  open or opens with its contents and a flag telling whether `mmap` succeeds.
  On the Java side it is either unreadable or mapped with its bytes.
- **Delimiter-only content records 0.** An outer iteration of the C++ scan that
  starts on a delimiter, or on a bare `-`, still folds the value 0. So a file
  holding only whitespace gives the local pair (0, 0) rather than nothing. The
  model follows the code (`DelimiterOnlyRecordsZero`, `DoubleMinusRecordsZero`).

## Model

| member | source | states |
|---|---|---|
| Extrema.FoldValues | MaxMinOpt-CPP/minmaxopt.cpp:70-71 | the running pair after folding values lies below/above the start and bounds every folded value; each end is the start's or one of the values |
| Extrema.Include | MaxMinOpt-CPP/minmaxopt.cpp:70-71 | folding one value: the new minimum is the smaller of the old minimum and the value, the new maximum the larger of the old maximum and the value |
| Extrema.Merge | MaxMinOpt-CPP/minmaxopt.cpp:24-32 | merging two pairs: each end is one of the two ends it replaces, the minimum no greater and the maximum no smaller than either |
| Extrema.SentinelFoldAttained | MaxMinOpt-CPP/minmaxopt.cpp:50 | folding a non-empty run of `long`s from (LONG_MAX, LONG_MIN) attains both ends among the values |
| Extrema.FoldValuesAppend | FindMinMaxInFiles.java:122-126 | folding a concatenation folds the second part into the result of the first |
| Extrema.MergeIsSemilattice | MaxMinOpt-CPP/minmaxopt.cpp:24-32 | merging pairs is associative, commutative and idempotent, and the sentinel pair is its unit on pairs within the `long` range |
| Extrema.FoldValuesIsMerge | FindMinMaxInFiles.java:85-89 | folding values into a pair is merging that pair with the values' own pair from the sentinels |
| Decimal.AccumulationIsPositional | MaxMinOpt-CPP/minmaxopt.cpp:63-66 | the value built by repeated `num * 10 + d` is the positional value, the sum of d_i * 10^(k-i) |
| Decimal.NatDigitsValue | Test/TestMaxMin.py:18 | the decimal digits written for a natural number read back as that number |
| Decimal.RenderCons | Test/TestMaxMin.py:17-18 | a generated file is its first line followed by the file of the remaining values |
| Scanner.Wrap64 | MaxMinOpt-CPP/minmaxopt.cpp:64 | the wrapped value is a `long`, and equals the input when the input already fits |
| Scanner.Accumulate | MaxMinOpt-CPP/minmaxopt.cpp:63-66 | the 64-bit accumulator after a digit run is always a `long` |
| Scanner.TokenValue | MaxMinOpt-CPP/minmaxopt.cpp:55-68 | the value one outer iteration records (sign, digit run, negation) is always a `long` |
| Scanner.WrapOfWrap | MaxMinOpt-CPP/minmaxopt.cpp:64 | wrapping after each step of `c * x + d` gives the same `long` as wrapping once at the end |
| Scanner.AccumulateIsWrappedValue | MaxMinOpt-CPP/minmaxopt.cpp:63-66 | the 64-bit accumulator after a digit run is the exact decimal value reduced to 64 bits |
| Scanner.TokenValueIsWrappedValue | MaxMinOpt-CPP/minmaxopt.cpp:55-68 | the recorded value is the signed decimal value reduced to 64 bits, and equals it exactly whenever it fits in a `long` |
| Scanner.DigitRunLength | MaxMinOpt-CPP/minmaxopt.cpp:63 | the digit loop stops after a run of digits, at the end or at the first non-digit |
| Scanner.DelimiterRunLength | MaxMinOpt-CPP/minmaxopt.cpp:73-75 | the skip loop passes only bytes that are neither digits nor `-`, and stops at the end, a digit or a `-` |
| Scanner.FirstIteration | MaxMinOpt-CPP/minmaxopt.cpp:54-75 | one outer iteration reads a digit run and consumes at least one byte and never more than remain |
| Scanner.Tokens | MaxMinOpt-CPP/minmaxopt.cpp:54-76 | one pass records at most as many values as there are bytes, and at least one for a non-empty buffer |
| Scanner.TokensInRange | MaxMinOpt-CPP/minmaxopt.cpp:55-68 | every recorded value is a `long` |
| Scanner.TokensUnfold | MaxMinOpt-CPP/minmaxopt.cpp:54-75 | the values recorded from a position are the value of the iteration there followed by the values recorded from where the skip loop stops |
| Scanner.AccumulateDigits | MaxMinOpt-CPP/minmaxopt.cpp:63-66 | the digit loop ends at the end of the digit run, with the wrapped accumulation of its digits |
| Scanner.ReadValue | MaxMinOpt-CPP/minmaxopt.cpp:55-68 | reading at a position skips an optional `-`, ends after the digit run, and yields the iteration's recorded value |
| Scanner.SkipDelimiters | MaxMinOpt-CPP/minmaxopt.cpp:73-75 | the skip loop ends where the delimiter run ends |
| Scanner.ScanStep | MaxMinOpt-CPP/minmaxopt.cpp:54-75 | folding one iteration's value leaves exactly the fold of the rest of the buffer to do |
| Scanner.Scan | MaxMinOpt-CPP/minmaxopt.cpp:50-76 | the scan returns the fold of every recorded value from the sentinels; it bounds all of them and, for a non-empty buffer, both ends are recorded values |
| Scanner.LocalExtremumBounds | MaxMinOpt-CPP/minmaxopt.cpp:50-71 | the local pair bounds every recorded value, and attains both ends for a non-empty buffer |
| Scanner.DelimiterOnlyRecordsZero | MaxMinOpt-CPP/minmaxopt.cpp:54-71 | a non-empty buffer of delimiters only records the single value 0 and gives the local pair (0, 0) |
| Scanner.MinusSplitsValues | MaxMinOpt-CPP/minmaxopt.cpp:58-61 | a `-` right after digits starts a new value: "5-3" records 5 and -3 |
| Scanner.DoubleMinusRecordsZero | MaxMinOpt-CPP/minmaxopt.cpp:58-68 | a bare `-` records 0: "--5" records 0 and -5, and "-" records 0 |
| Scanner.DigitsLineTokens | MaxMinOpt-CPP/minmaxopt.cpp:54-75 | a line of an optional `-`, digits and `\n` records exactly one value and hands the rest of the buffer on |
| Scanner.FormattedValue | MaxMinOpt-CPP/minmaxopt.cpp:63-68 | the digits `Long.toString` writes for a `long` read back as that value, -2^63 included |
| Scanner.LineTokens | MaxMinOpt-CPP/minmaxopt.cpp:54-75 | a generated line records exactly its value |
| Scanner.RenderedTokens | MaxMinOpt-CPP/minmaxopt.cpp:54-76 | the scan of a generated file records exactly the written values, in order |
| Scanner.RenderStart | Test/TestMaxMin.py:18 | a generated file starts with a digit or `-`, never a delimiter |
| Scanner.RenderedExtremum | MaxMinOpt-CPP/minmaxopt.cpp:50-76 | the local pair of a generated file is the pair of its values |
| Dispatch.Atomic.Load | MaxMinOpt-CPP/minmaxopt.cpp:25 | a load returns the cell's value |
| Dispatch.Atomic.CompareExchange | MaxMinOpt-CPP/minmaxopt.cpp:26 | the store happens exactly when the cell holds the expected value; the value seen is returned either way |
| Dispatch.Atomic.FetchAdd | MaxMinOpt-CPP/minmaxopt.cpp:134 | the cell grows by the delta and the value before is returned |
| Dispatch.AtomicMin | MaxMinOpt-CPP/minmaxopt.cpp:24-27 | the cell becomes min(old, v); nothing is written when v is not below the old value, and one store is made otherwise |
| Dispatch.AtomicMax | MaxMinOpt-CPP/minmaxopt.cpp:29-32 | the cell becomes max(old, v); nothing is written when v is not above the old value, and one store is made otherwise |
| Dispatch.GlobalExtremum.constructor | MaxMinOpt-CPP/minmaxopt.cpp:19-21 | the globals start at LONG_MAX, LONG_MIN and 0, in three distinct cells |
| Dispatch.ScannableCount | MaxMinOpt-CPP/minmaxopt.cpp:84 | no more files are counted than there are |
| Dispatch.CorpusFold | MaxMinOpt-CPP/minmaxopt.cpp:78-79 | merging the scanned files into the globals, in claim order, only moves the minimum down and the maximum up |
| Dispatch.ProcessFile | MaxMinOpt-CPP/minmaxopt.cpp:34-85 | a file that fails to open, is empty or fails to map changes no global; otherwise its local pair is merged in and the count grows by one |
| Dispatch.Worker | MaxMinOpt-CPP/minmaxopt.cpp:132-138 | the worker claims indices 0..n-1 in order, each once, stops with the index at n + 1, leaves the globals at the fold of all files, and counts the files scanned |
| Dispatch.FindGlobalExtrema | MaxMinOpt-CPP/minmaxopt.cpp:119-152 | an empty list and only an empty list gives "No files to process."; otherwise the printed pair is the corpus pair and the count is the number of files scanned |
| Dispatch.CorpusFoldBounds | MaxMinOpt-CPP/minmaxopt.cpp:78-79 | the global pair bounds the starting pair and the pair of every scanned file |
| Dispatch.CorpusFoldAttained | MaxMinOpt-CPP/minmaxopt.cpp:78-79 | each end of the global pair is the start's or that of some scanned file |
| Dispatch.CorpusOrderIndependent | MaxMinOpt-CPP/minmaxopt.cpp:132-138 | the global pair depends only on which files are present, not on their order or repetition |
| Dispatch.CorpusExtremumIsTokenExtremum | MaxMinOpt-CPP/minmaxopt.cpp:70-79 | merging per-file pairs gives the pair of all values recorded in all scanned files |
| LineSplit.Pieces | FindMinMaxInFiles.java:110 | cutting text at newlines gives at least one piece |
| LineSplit.PiecesSnoc | FindMinMaxInFiles.java:110 | a newline ends the last piece and starts an empty one; any other byte extends the last piece |
| LineSplit.LastPieceLineFree | FindMinMaxInFiles.java:117-118 | the piece carried over never holds a newline |
| LineSplit.JoinPieces | FindMinMaxInFiles.java:110 | joining the pieces with newlines gives the text back |
| LineSplit.PiecesJoin | FindMinMaxInFiles.java:110 | cutting newline-free pieces joined with newlines gives the same pieces |
| LineSplit.PiecesAppend | FindMinMaxInFiles.java:112-119 | cutting a concatenation gives the first part's complete lines, then the cut of its last piece followed by the rest |
| LineSplit.PiecesPrepend | FindMinMaxInFiles.java:113 | newline-free text in front of a chunk joins the chunk's first piece |
| LineSplit.NoEmptyLinesSplit | FindMinMaxInFiles.java:112-119 | a text without blank lines keeps that property in its prefix and in the text that continues its last piece |
| LineSplit.DropTrailingEmpty | FindMinMaxInFiles.java:110 | dropping trailing empty strings keeps a prefix, removes only empty strings, and leaves no empty string at the end |
| LineSplit.JavaSplit | FindMinMaxInFiles.java:110 | `split("\n")` returns a prefix of the newline-separated pieces and drops only empty strings after it; without a newline it returns exactly one string (the whole text, even when empty), and with one the last string it returns is not empty |
| LineSplit.SplitUnterminated | FindMinMaxInFiles.java:117-118 | a chunk that does not end with a newline splits into all of its pieces, its partial last line included |
| LineSplit.SplitTerminated | FindMinMaxInFiles.java:121 | a chunk ending with a single newline splits into its complete lines |
| LineSplit.SplitLoneNewline | FindMinMaxInFiles.java:110-113 | a chunk that is a lone newline splits into an empty array |
| LineSplit.LinesAreJavaSplit | FindMinMaxInFiles.java:110 | on a text without blank lines, the lines of the whole text are what `split("\n")` returns for it |
| LineSplit.TrailingBlankLineDropped | FindMinMaxInFiles.java:110 | `"5\n\n".split("\n")` is the single string "5", while the text has two lines, the second one blank |
| LineSplit.RenderedPieces | Test/TestMaxMin.py:17-18 | a generated file cuts into its formatted values followed by one empty piece |
| LineSplit.FormattedElements | Test/TestMaxMin.py:18 | the i-th line of a generated file is the i-th value written with `Long.toString` |
| LineSplit.RenderedNoEmptyLines | Test/TestMaxMin.py:18 | a generated file has no blank line |
| LongParse.TrimStart | FindMinMaxInFiles.java:123 | trimming the front removes exactly the leading characters up to U+0020 |
| LongParse.TrimEnd | FindMinMaxInFiles.java:123 | trimming the back removes exactly the trailing characters up to U+0020 |
| LongParse.Trim | FindMinMaxInFiles.java:123 | `trim` never lengthens; its result is empty only when every character is at most U+0020, and otherwise starts and ends with a character above U+0020 |
| LongParse.ParseLong | FindMinMaxInFiles.java:123 | a successful parse is a `long` |
| LongParse.ParseRejectsStray | FindMinMaxInFiles.java:123 | a byte that is not a digit anywhere in the line, other than a leading sign, makes `parseLong` throw `NumberFormatException` |
| LongParse.ParseDigits | FindMinMaxInFiles.java:123 | unsigned digits parse to their value exactly when it fits |
| LongParse.ParseNegatedDigits | FindMinMaxInFiles.java:123 | a `-` and digits parse to the negated value exactly when it fits |
| LongParse.ParseFormatLong | FindMinMaxInFiles.java:123 | parsing what `Long.toString` writes gives the value back for every `long`, and fails outside the range |
| LongParse.ParseFormatted | FindMinMaxInFiles.java:123 | trimming then parsing a formatted `long` gives it back |
| LongParse.ParseBlank | FindMinMaxInFiles.java:123 | an empty or blank line trims to nothing and does not parse |
| LongParse.ParseSignAlone | FindMinMaxInFiles.java:123 | a sign alone does not parse |
| ChunkedReader.ParseInto | FindMinMaxInFiles.java:123-125 | folding a parsed line only widens the pair, and a failure stands |
| ChunkedReader.FoldLines | FindMinMaxInFiles.java:122-126 | folding the lines only widens the pair, and a failure stands |
| ChunkedReader.FoldLinesAppend | FindMinMaxInFiles.java:122-126 | folding two runs of lines is folding the second into the result of the first |
| ChunkedReader.FoldLinesFailed | FindMinMaxInFiles.java:123 | once a line fails to parse, no later line changes the outcome |
| ChunkedReader.FoldFormatted | FindMinMaxInFiles.java:122-126 | the formatted lines of a run of `long`s fold to the pair of the values |
| ChunkedReader.Step | FindMinMaxInFiles.java:109-126 | one iteration of the chunk loop as written: an exception already raised stands; if reading goes on, the pair only widens and keeps both ends `long`s |
| ChunkedReader.StepRepaired | FindMinMaxInFiles.java:109-126 | the iteration with the lone-newline case repaired keeps the same guarantees |
| ChunkedReader.Chunks | FindMinMaxInFiles.java:105-107 | every chunk the loop copies holds between 1 and 65 536 bytes |
| ChunkedReader.Drive | FindMinMaxInFiles.java:105-127 | the whole chunk loop: an exception ends it, and while it reads the pair only widens and keeps both ends `long`s |
| ChunkedReader.Finish | FindMinMaxInFiles.java:129-133 | the flush of `leftover` after the loop only widens the pair and keeps its ends `long`s, or ends in an exception |
| ChunkedReader.ReadWith | FindMinMaxInFiles.java:96-140 | `findMinMaxInFile`, as written (`ReadFile`) or repaired (`ReadFileRepaired`): a pair it returns has both ends `long`s |
| ChunkedReader.ChunksShape | FindMinMaxInFiles.java:105-107 | the chunks are non-empty, at most 65 536 bytes, all but the last full, and tile the file in order |
| ChunkedReader.DriveFailed | FindMinMaxInFiles.java:105-127 | an exception ends the chunk loop |
| ChunkedReader.StepLocal | FindMinMaxInFiles.java:109-126 | when the chunk is not a lone newline after a pending line, one iteration folds the complete lines of leftover-plus-chunk and carries its last piece |
| ChunkedReader.StepRepairedLocal | FindMinMaxInFiles.java:109-126 | the repaired iteration does the same for every chunk |
| ChunkedReader.StepExpected | FindMinMaxInFiles.java:109-126 | one iteration moves the reader from the state of reading a prefix at once to that of reading the longer prefix at once |
| ChunkedReader.ChunksAppend | FindMinMaxInFiles.java:105-107 | after a prefix of whole buffers, the chunks of the rest are chunked on their own |
| ChunkedReader.DriveAppend | FindMinMaxInFiles.java:105 | running the loop over two runs of chunks is running it over the second from where the first ends |
| ChunkedReader.DriveExpected | FindMinMaxInFiles.java:105-127 | without a lone-newline chunk, the chunk loop ends in the state of reading the file at once |
| ChunkedReader.FinishExpected | FindMinMaxInFiles.java:129-133 | flushing the leftover after the loop completes the reading of every line, the unterminated last one included |
| ChunkedReader.ReadMatchesLines | FindMinMaxInFiles.java:96-140 | for a file without blank lines and without a lone-newline last chunk, the reader parses exactly the lines of the whole file, whatever the chunk boundaries |
| ChunkedReader.ReadRepairedMatchesLines | FindMinMaxInFiles.java:96-140 | with the lone-newline case repaired, the reader parses exactly the lines of every file without blank lines |
| ChunkedReader.LoneNewlineCrashes | FindMinMaxInFiles.java:110-113 | a file without blank lines whose last chunk is a lone newline after a pending line throws `ArrayIndexOutOfBoundsException` when no earlier complete line fails to parse, whether or not the pending line would parse |
| ChunkedReader.ReadLinesOfRender | Test/TestMaxMin.py:17-18 | reading a generated file at once gives the pair of its values |
| ChunkedReader.GeneratedFileRepaired | FindMinMaxInFiles.java:96-140 | the repaired reader gives the pair of the values of every generated file |
| ChunkedReader.GeneratedFileRead | FindMinMaxInFiles.java:96-140 | the reader as written gives the pair of the values of a generated file whose length is not one more than a multiple of 65 536 |
| ChunkedReader.GeneratedFileCrashes | FindMinMaxInFiles.java:110-113 | the reader as written throws on a generated file whose length is one more than a multiple of 65 536 |
| ChunkedReader.ReadNothing | FindMinMaxInFiles.java:135-139 | an unreadable file and an empty file both return the sentinel pair |
| ChunkedReader.BlankLineAtChunkEnd | FindMinMaxInFiles.java:110-126 | the one-chunk file "5\n\n" reads as (5, 5) because `split` drops its blank last line, while reading its lines as a whole file throws on that blank line |
| ChunkedReader.FoldLinesStops | FindMinMaxInFiles.java:122-123 | once a line fails to parse, the loop's outcome is that failure however many more lines it was to parse |
| ChunkedReader.FoldChunkLines | FindMinMaxInFiles.java:121-126 | the parse loop over the first `limit` pieces returns their fold |
| ChunkedReader.ReadChunk | FindMinMaxInFiles.java:109-126 | one iteration of the chunk loop gives the state that the function `Step` gives |
| ChunkedReader.FinishPending | FindMinMaxInFiles.java:129-133 | a non-empty leftover is parsed and folded after the loop |
| ChunkedReader.ReadChunks | FindMinMaxInFiles.java:102-127 | the chunk loop over the mapped bytes gives the state that the function `Drive` gives |
| ChunkedReader.FindMinMaxInFile | FindMinMaxInFiles.java:96-140 | `findMinMaxInFile` returns the outcome of the function `ReadFile`, that is, of the chunk loop followed by the leftover flush |
| Batches.MergeOutcomeMonoid | FindMinMaxInFiles.java:47-51 | merging outcomes is associative, the sentinel pair is its unit on sound outcomes, and merging keeps outcomes sound |
| Batches.MergeOutcome | FindMinMaxInFiles.java:47-51 | folding one more result: an exception already raised stands; the outcome is a pair exactly when both are pairs, and then it is their merge |
| Batches.FoldOutcomes | FindMinMaxInFiles.java:44-51 | folding results gives a pair only when the start and every result are pairs, and that pair only widens the start |
| Batches.FoldOutcomesAppend | FindMinMaxInFiles.java:47-51 | folding two runs of outcomes is folding the second into the result of the first |
| Batches.FoldOutcomesFailed | FindMinMaxInFiles.java:48 | once a future has thrown, no later future changes the outcome |
| Batches.FoldOutcomesStops | FindMinMaxInFiles.java:48 | the first failed outcome in order is the outcome of the fold |
| Batches.FoldOutcomesIsMerge | FindMinMaxInFiles.java:85-88 | folding sound outcomes into a pair is merging it with their fold from the sentinels, which is sound |
| Batches.ReadsSound | FindMinMaxInFiles.java:86 | every file's result is an exception or a pair whose ends are both `long`s |
| Batches.ReadsAppend | FindMinMaxInFiles.java:85-86 | the results of two runs of files are those of each run, in order |
| Batches.BatchingPreservesResult | FindMinMaxInFiles.java:37-51 | folding the batch results gives the result of folding all files in one run, and it is sound |
| Batches.PartitionBatches | FindMinMaxInFiles.java:37-38 | the batches put back together are the file list; each holds 1 to 10 files and all but the last hold 10 |
| Batches.ComputeBatch | FindMinMaxInFiles.java:81-93 | `compute` returns the fold of its files' results from the sentinels |
| Batches.ComputeBatchStep | FindMinMaxInFiles.java:85-91 | one iteration of `compute`: a file's pair is merged into the batch pair, and a file's exception is the batch's result |
| Batches.BatchResult | FindMinMaxInFiles.java:81-93 | what `compute` returns is an exception or a pair of `long`s, and a pair only when every file of the batch was read without an exception |
| Batches.BatchResultsPrefix | FindMinMaxInFiles.java:37-42 | each new future appends its batch's result |
| Batches.RunBatches | FindMinMaxInFiles.java:37-42 | the futures hold each batch's result, in order |
| Batches.FoldFutures | FindMinMaxInFiles.java:44-51 | the global loop returns the fold of the futures from the sentinels |
| Batches.FindMinMaxInFiles | FindMinMaxInFiles.java:25-51 | the global pair is the fold of every file's result in order, and both ends of a pair returned are `long`s |
| Batches.GlobalResultSnoc | FindMinMaxInFiles.java:47-51 | one more file merges its result into the global outcome |
| Batches.GlobalResult | FindMinMaxInFiles.java:44-51 | the folder's outcome is an exception or a pair of `long`s, and a pair only when every file was read without an exception |
| Batches.CorpusOfValues | FindMinMaxInFiles.java:44-51 | when every file reads as the pair of its values, the global pair is that of all values |
| Batches.GeneratedCorpus | FindMinMaxInFiles.java:25-51 | a folder of generated files, none one byte past a multiple of 65 536, gives the pair of all values |

## Left out

- Threads and memory orderings: the C++ worker runs alone and the Java batches run one after another. The model gives the sequential meaning of claiming and merging. `CorpusOrderIndependent` shows that the result does not depend on the merge order.
- Dispatch.AtomicMin, Dispatch.AtomicMax: `compare_exchange_weak` may fail spuriously; the model's compare-exchange fails only when the value differs. With one thread, the retry loop then makes at most one attempt.
- `display_progress`, its mutex and sleep, and the thread creation and joins (minmaxopt.cpp:87-105, 125-147): concurrency and terminal output.
- Dispatch.FindGlobalExtrema: the report is what the globals hold once the workers are done. The program prints it only when every file was scanned, that is when `ScannableCount(files) == |files|`. If any file fails to open, is empty or fails to map, `processedFiles` never reaches the number of files. The same happens when `std::thread::hardware_concurrency()` returns 0, which the standard allows: no worker thread is started, `processedFiles` stays 0, and the wait never ends even if every file could be scanned; the model runs one sequential worker in either case. `display_progress` then loops forever, `progressThread.join()` never returns, and nothing is printed. The model does not capture this hang, because `display_progress` is not modelled.
- ChunkedReader.ReadMatchesLines: holds only for files without blank lines. With blank lines the result depends on where the chunk boundaries fall. `split` drops a blank line at the end of a chunk, but a blank line inside a chunk does not parse (`BlankLineAtChunkEnd`).
- `open`, `fs::file_size`, `mmap`, `munmap`, `close`, `FileChannel.open` and `map`: I/O, replaced by a file value (contents, plus whether opening and mapping succeed). An exception from `fs::file_size` is not modelled.
- An `IOException` after the file is mapped: reading a mapped buffer does not raise one, so the caught exception is modelled only on open and map, where nothing has been read yet.
- The directory listing, `Files.list` and its exceptions, timing, and all printing.
- `updateProgress`, `printSystemInfo` and `formatBytes`: floating point, OS queries and output. Also the `filesProcessed` counter that feeds the progress bar.
- The `ForkJoinPool` and executor scheduling of the Java batches; `future.get()` wrapping an exception is modelled as the exception itself.
- UTF-8 decoding of a chunk: the model reads ASCII bytes, on which decoding is the identity. A multi-byte character cut by a chunk boundary is not modelled.
- `size_t` wrap-around of the file index and a mapping larger than `Integer.MAX_VALUE` bytes: far beyond any realistic input.
- MinMaxOpt-Java/FindMinMaxInFiles.java and MinMaxOpt-JNI/src/MinMaxJNI.java wrap native code that is not part of this model.
- Test/TestMaxMin.py writes files with random values; only its output format (one value and a newline per line) and value range are modelled, by `Render`.

## Findings

| source | as written | input that shows it | evidently intended | confidence | as-written member | corrected member |
|---|---|---|---|---|---|---|
| FindMinMaxInFiles.java:110-113 | when a chunk is exactly `"\n"` while a line is pending in `leftover`, `split("\n")` returns an empty array and `numbers[0]` throws `ArrayIndexOutOfBoundsException`, which nothing catches; for a file without blank lines whose lines all parse, this happens whenever the file ends with a newline and its length is one more than a multiple of 65 536: the line before that newline is then still pending when the last chunk arrives | a file of 32 767 lines `7\n` followed by the line `77\n`: 65 537 bytes, the first chunk ends with the pending `77`, the second chunk is `\n` | the pending line is complete and is parsed, so the file reads as the pair of its values (7, 77) | not executed | ChunkedReader.GeneratedFileCrashes | ChunkedReader.GeneratedFileRepaired |
