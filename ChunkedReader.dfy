/**
 * `findMinMaxInFile` of the Java program (FindMinMaxInFiles.java): the mapped
 * file is copied out in chunks of at most 65 536 bytes, each chunk is split on
 * newlines, a partial last line is carried over to the next chunk in
 * `leftover`, and every complete line is trimmed, parsed with
 * `Long.parseLong` and folded into (localMin, localMax).
 *
 * Exceptions become values: a `NumberFormatException` from the parse and an
 * `ArrayIndexOutOfBoundsException` from `numbers[0]` are not caught by the
 * method and end the reading with `Err`; an `IOException` from opening or
 * mapping the file is caught and yields the sentinel pair.
 */
module ChunkedReader {
  import opened Decimal
  import opened Extrema
  import opened LineSplit
  import opened LongParse

  /** `BUFFER_SIZE`. */
  const BufferSize: nat := 65536

  /** The unchecked exceptions that escape the reader. */
  datatype Failure = NumberFormat | IndexOutOfBounds

  /** A `long[]{min, max}` result, or the exception that ended the computation. */
  datatype Outcome = Ok(pair: Pair) | Err(failure: Failure)

  /** A file as `FileChannel.open` and `map` see it: an `IOException`, or its bytes. */
  datatype MappedFile = Unreadable | Mapped(bytes: seq<byte>)

  /** Parses one line, `Long.parseLong(line.trim())`, and folds it into the pair; an earlier exception stands. */
  function ParseInto(o: Outcome, line: seq<byte>): (r: Outcome)
    ensures r.Ok? ==> o.Ok? && r.pair.min <= o.pair.min && o.pair.max <= r.pair.max
    ensures r.Ok? && o.Ok? && WithinSentinels(o.pair) ==> WithinSentinels(r.pair)
  {
    match o
    case Err(_) => o
    case Ok(p) =>
      match ParseLong(Trim(line))
      case None => Err(NumberFormat)
      case Some(v) => Ok(Include(p, v))
  }

  /** The parse-and-fold loop over `lines`, in order; the first line that does not parse ends it. */
  function FoldLines(o: Outcome, lines: seq<seq<byte>>): (r: Outcome)
    ensures r.Ok? ==> o.Ok? && r.pair.min <= o.pair.min && o.pair.max <= r.pair.max
    ensures r.Ok? && o.Ok? && WithinSentinels(o.pair) ==> WithinSentinels(r.pair)
  {
    if lines == [] then o else ParseInto(FoldLines(o, lines[..|lines| - 1]), lines[|lines| - 1])
  }

  /** Folding two runs of lines is folding the second into the result of the first. */
  lemma {:induction false} FoldLinesAppend(o: Outcome, a: seq<seq<byte>>, b: seq<seq<byte>>)
    ensures FoldLines(o, a + b) == FoldLines(FoldLines(o, a), b)
    decreases |b|
  {
    if b == [] {
      assert a + b == a;
    } else {
      assert (a + b)[..|a + b| - 1] == a + b[..|b| - 1];
      FoldLinesAppend(o, a, b[..|b| - 1]);
    }
  }

  /** Once a line has failed to parse, no later line changes the outcome. */
  lemma {:induction false} FoldLinesFailed(f: Failure, lines: seq<seq<byte>>)
    ensures FoldLines(Err(f), lines) == Err(f)
  {
    if lines != [] {
      FoldLinesFailed(f, lines[..|lines| - 1]);
    }
  }

  /** The formatted values of a generated file parse back and fold to the pair of the values. */
  lemma {:induction false} FoldFormatted(p: Pair, vs: seq<int>)
    requires forall i :: 0 <= i < |vs| ==> InLongRange(vs[i])
    ensures FoldLines(Ok(p), Formatted(vs)) == Ok(FoldValues(p, vs))
  {
    if vs != [] {
      var init := vs[..|vs| - 1];
      FoldFormatted(p, init);
      var lines := Formatted(vs);
      assert lines == Formatted(init) + [FormatLong(vs[|vs| - 1])];
      assert lines[..|lines| - 1] == Formatted(init);
      ParseFormatted(vs[|vs| - 1]);
    }
  }

  /** What the loop carries from one chunk to the next: `leftover` and the pair, or the exception that ended it. */
  datatype ReadState = Reading(leftover: seq<byte>, acc: Pair) | Failed(failure: Failure)

  /** `String.endsWith("\n")`. */
  predicate EndsWithNewline(s: seq<byte>) {
    |s| > 0 && s[|s| - 1] == NL
  }

  /** Continues with `leftover` after the lines folded to `o`, or stops with its exception. */
  function Resume(o: Outcome, leftover: seq<byte>): ReadState {
    match o
    case Ok(p) => Reading(leftover, p)
    case Err(f) => Failed(f)
  }

  /**
   * One iteration of the chunk loop, as written: split the chunk, prepend
   * `leftover` to `numbers[0]` (which fails when the split is empty), carry
   * the last piece over unless the chunk ends with a newline, and fold the
   * other pieces.
   */
  function Step(st: ReadState, chunk: seq<byte>): (r: ReadState)
    ensures st.Failed? ==> r == st
    ensures r.Reading? ==> st.Reading? && r.acc.min <= st.acc.min && st.acc.max <= r.acc.max
    ensures r.Reading? && st.Reading? && WithinSentinels(st.acc) ==> WithinSentinels(r.acc)
  {
    match st
    case Failed(_) => st
    case Reading(leftover, acc) =>
      var split := JavaSplit(chunk);
      if |leftover| > 0 && |split| == 0 then Failed(IndexOutOfBounds)
      else
        var numbers := if |leftover| > 0 then split[0 := leftover + split[0]] else split;
        var complete := EndsWithNewline(chunk);
        assert !complete ==> |numbers| > 0 by {
          if !complete && NL in chunk {
            LastPieceOfUnterminated(chunk);
          }
        }
        var carried := if complete then [] else numbers[|numbers| - 1];
        var limit := if complete then |numbers| else |numbers| - 1;
        Resume(FoldLines(Ok(acc), numbers[..limit]), carried)
  }

  /**
   * The same iteration with the lone-newline case repaired: when the chunk
   * splits into nothing while a line is pending, that line is complete and
   * is parsed.
   */
  function StepRepaired(st: ReadState, chunk: seq<byte>): (r: ReadState)
    ensures st.Failed? ==> r == st
    ensures r.Reading? ==> st.Reading? && r.acc.min <= st.acc.min && st.acc.max <= r.acc.max
    ensures r.Reading? && st.Reading? && WithinSentinels(st.acc) ==> WithinSentinels(r.acc)
  {
    if st.Reading? && |st.leftover| > 0 && |JavaSplit(chunk)| == 0 then
      Resume(FoldLines(Ok(st.acc), [st.leftover]), [])
    else Step(st, chunk)
  }

  /** Concatenation of chunks. */
  function Concat(cs: seq<seq<byte>>): seq<byte> {
    if cs == [] then [] else cs[0] + Concat(cs[1..])
  }

  /** The chunks the loop copies: `min(buffer.remaining(), BUFFER_SIZE)` bytes at a time. */
  function Chunks(bytes: seq<byte>): (cs: seq<seq<byte>>)
    ensures forall i :: 0 <= i < |cs| ==> 0 < |cs[i]| <= BufferSize
    decreases |bytes|
  {
    if bytes == [] then []
    else
      var m := if |bytes| < BufferSize then |bytes| else BufferSize;
      [bytes[..m]] + Chunks(bytes[m..])
  }

  /** The chunks are non-empty, all but the last are full buffers, and together they are the file. */
  lemma {:induction false} ChunksShape(bytes: seq<byte>)
    ensures var cs := Chunks(bytes);
      (forall i :: 0 <= i < |cs| ==> 0 < |cs[i]| <= BufferSize) &&
      (forall i :: 0 <= i < |cs| - 1 ==> |cs[i]| == BufferSize) &&
      Concat(cs) == bytes
    decreases |bytes|
  {
    if bytes != [] {
      var m := if |bytes| < BufferSize then |bytes| else BufferSize;
      var cs := Chunks(bytes);
      ChunksShape(bytes[m..]);
      assert cs[1..] == Chunks(bytes[m..]);
      assert bytes == bytes[..m] + bytes[m..];
    }
  }

  /** The chunk loop from state `st` over the chunks `cs`, as written or repaired. */
  function Drive(st: ReadState, cs: seq<seq<byte>>, repaired: bool): (r: ReadState)
    ensures st.Failed? ==> r == st
    ensures r.Reading? ==> st.Reading? && r.acc.min <= st.acc.min && st.acc.max <= r.acc.max
    ensures r.Reading? && st.Reading? && WithinSentinels(st.acc) ==> WithinSentinels(r.acc)
    decreases |cs|
  {
    if cs == [] then st
    else Drive(if repaired then StepRepaired(st, cs[0]) else Step(st, cs[0]), cs[1..], repaired)
  }

  /** After the loop: a non-empty `leftover` is the last line and is parsed too. */
  function Finish(st: ReadState): (r: Outcome)
    ensures r.Ok? ==> st.Reading? && r.pair.min <= st.acc.min && st.acc.max <= r.pair.max
    ensures r.Ok? && st.Reading? && WithinSentinels(st.acc) ==> WithinSentinels(r.pair)
  {
    match st
    case Failed(f) => Err(f)
    case Reading(leftover, acc) =>
      if |leftover| > 0 then FoldLines(Ok(acc), [leftover]) else Ok(acc)
  }

  /** `findMinMaxInFile`, as written or repaired. */
  function ReadWith(file: MappedFile, repaired: bool): (r: Outcome)
    ensures r.Ok? ==> WithinSentinels(r.pair)
  {
    match file
    case Unreadable => Ok(Sentinels)
    case Mapped(bytes) => Finish(Drive(Reading([], Sentinels), Chunks(bytes), repaired))
  }

  /** `findMinMaxInFile` as written. */
  function ReadFile(file: MappedFile): Outcome {
    ReadWith(file, false)
  }

  /** `findMinMaxInFile` with the lone-newline chunk repaired. */
  function ReadFileRepaired(file: MappedFile): Outcome {
    ReadWith(file, true)
  }

  /** The reading of the whole file at once: every line, the unterminated last one included, parsed in order. */
  function ReadLines(bytes: seq<byte>): Outcome {
    FoldLines(Ok(Sentinels), Lines(bytes))
  }

  /**
   * The file splits so that its last chunk is a lone newline: its length is
   * one more than a multiple of the buffer size and it ends with a newline.
   */
  predicate LoneNewlineChunk(bytes: seq<byte>) {
    |bytes| % BufferSize == 1 && bytes[|bytes| - 1] == NL
  }

  /** A failed reading stays failed through any further chunks. */
  lemma {:induction false} DriveFailed(f: Failure, cs: seq<seq<byte>>, repaired: bool)
    decreases |cs|
    ensures Drive(Failed(f), cs, repaired) == Failed(f)
  {
    if cs != [] {
      DriveFailed(f, cs[1..], repaired);
    }
  }

  /**
   * One chunk read with a pending newline-free `leftover`: the lines folded
   * are the complete lines of `leftover + chunk`, and what is carried over is
   * its last piece, provided no line is blank and the chunk is not a lone
   * newline completing `leftover`.
   */
  lemma StepLocal(L: seq<byte>, acc: Pair, c: seq<byte>)
    requires NL !in L && c != []
    requires NoEmptyLines(L + c)
    requires !(c == [NL] && L != [])
    ensures |JavaSplit(c)| > 0
    ensures Step(Reading(L, acc), c) == Resume(FoldLines(Ok(acc), CompleteLines(L + c)), LastPiece(L + c))
  {
    if c[|c| - 1] != NL {
      StepUnterminated(L, acc, c);
    } else {
      StepTerminated(L, acc, c);
    }
  }

  /** A chunk without a final newline: all its pieces but the last are folded, and the last is carried. */
  lemma StepUnterminated(L: seq<byte>, acc: Pair, c: seq<byte>)
    requires NL !in L && c != [] && c[|c| - 1] != NL
    ensures |JavaSplit(c)| > 0
    ensures Step(Reading(L, acc), c) == Resume(FoldLines(Ok(acc), CompleteLines(L + c)), LastPiece(L + c))
  {
    SplitUnterminated(c);
    PiecesPrepend(L, c);
    var split := JavaSplit(c);
    var numbers := if |L| > 0 then split[0 := L + split[0]] else split;
    assert numbers == Pieces(L + c) by {
      if L == [] {
        assert L + c == c;
      }
    }
    assert !EndsWithNewline(c);
    assert numbers[..|numbers| - 1] == CompleteLines(L + c);
  }

  /** A chunk ending with a newline: all its pieces are folded and nothing is carried. */
  lemma StepTerminated(L: seq<byte>, acc: Pair, c: seq<byte>)
    requires NL !in L && c != [] && c[|c| - 1] == NL
    requires NoEmptyLines(L + c)
    requires !(c == [NL] && L != [])
    ensures |JavaSplit(c)| > 0
    ensures Step(Reading(L, acc), c) == Resume(FoldLines(Ok(acc), CompleteLines(L + c)), LastPiece(L + c))
  {
    var c' := c[..|c| - 1];
    TerminatedPieces(L, c);
    PiecesPrepend(L, c');
    var split := JavaSplit(c);
    var numbers := if |L| > 0 then split[0 := L + split[0]] else split;
    assert numbers == Pieces(L + c') by {
      if L == [] {
        assert L + c' == c';
      }
    }
    assert EndsWithNewline(c);
    assert numbers[..|numbers|] == numbers;
  }

  /** The split of a newline-terminated chunk and the pieces it completes. */
  lemma TerminatedPieces(L: seq<byte>, c: seq<byte>)
    requires NL !in L && c != [] && c[|c| - 1] == NL
    requires NoEmptyLines(L + c)
    requires !(c == [NL] && L != [])
    ensures JavaSplit(c) == Pieces(c[..|c| - 1])
    ensures CompleteLines(L + c) == Pieces(L + c[..|c| - 1]) && LastPiece(L + c) == []
  {
    var c' := c[..|c| - 1];
    assert c == c' + [NL];
    assert L + c == (L + c') + [NL];
    assert (L + c)[..|L + c| - 1] == L + c';
    BlankLineBeforeNewline(L + c);
    SplitTerminated(c);
    PiecesNewline(c');
    PiecesNewline(L + c');
  }

  /** With the repair, the lone-newline chunk completes `leftover` as well. */
  lemma StepRepairedLocal(L: seq<byte>, acc: Pair, c: seq<byte>)
    requires NL !in L && c != []
    requires NoEmptyLines(L + c)
    ensures StepRepaired(Reading(L, acc), c) == Resume(FoldLines(Ok(acc), CompleteLines(L + c)), LastPiece(L + c))
  {
    if c == [NL] && L != [] {
      SplitLoneNewline();
      PiecesNewline(L);
      PiecesOfLineFree(L);
    } else {
      StepLocal(L, acc, c);
    }
  }

  /** The state the chunk loop should be in after reading the prefix `P` of a file. */
  function Expected(P: seq<byte>): ReadState {
    Resume(FoldLines(Ok(Sentinels), CompleteLines(P)), LastPiece(P))
  }

  /** One chunk takes the expected state after `P` to the expected state after `P + c`. */
  lemma StepExpected(P: seq<byte>, c: seq<byte>, repaired: bool)
    requires c != [] && NoEmptyLines(P + c)
    requires repaired || !(c == [NL] && LastPiece(P) != [])
    ensures (if repaired then StepRepaired(Expected(P), c) else Step(Expected(P), c)) == Expected(P + c)
  {
    var L := LastPiece(P);
    LastPieceLineFree(P);
    CompleteLinesAppend(P, c);
    NoEmptyLinesSplit(P, c);
    var before := FoldLines(Ok(Sentinels), CompleteLines(P));
    FoldLinesAppend(Ok(Sentinels), CompleteLines(P), CompleteLines(L + c));
    match before
    case Err(f) =>
      FoldLinesFailed(f, CompleteLines(L + c));
    case Ok(acc) =>
      if repaired {
        StepRepairedLocal(L, acc, c);
      } else {
        StepLocal(L, acc, c);
      }
  }

  /** The chunks of a text whose length is a multiple of the buffer size, followed by more text. */
  lemma {:induction false} ChunksAppend(P: seq<byte>, rest: seq<byte>)
    requires |P| % BufferSize == 0
    ensures Chunks(P + rest) == Chunks(P) + Chunks(rest)
    decreases |P|
  {
    if P == [] {
      assert P + rest == rest;
    } else {
      assert (P + rest)[..BufferSize] == P[..BufferSize];
      assert (P + rest)[BufferSize..] == P[BufferSize..] + rest;
      ChunksAppend(P[BufferSize..], rest);
    }
  }

  /** Driving over two runs of chunks is driving over the first, then the second. */
  lemma {:induction false} DriveAppend(st: ReadState, a: seq<seq<byte>>, b: seq<seq<byte>>, repaired: bool)
    decreases |a|
    ensures Drive(st, a + b, repaired) == Drive(Drive(st, a, repaired), b, repaired)
  {
    if a == [] {
      assert a + b == b;
    } else {
      assert (a + b)[1..] == a[1..] + b;
      var next := if repaired then StepRepaired(st, a[0]) else Step(st, a[0]);
      DriveAppend(next, a[1..], b, repaired);
    }
  }

  /** As written, a lone-newline chunk completing a pending line can only be the last chunk of such a file. */
  lemma LoneNewlineIsLast(P: seq<byte>, rest: seq<byte>)
    requires |P| % BufferSize == 0 && rest == [NL]
    ensures LoneNewlineChunk(P + rest)
  {
    var q := |P| / BufferSize;
    assert |P + rest| == BufferSize * q + 1;
    assert (P + rest)[|P + rest| - 1] == NL;
  }

  /** The first chunk of a non-empty text, and the chunks of what follows it. */
  lemma ChunksCons(rest: seq<byte>)
    requires rest != []
    ensures var m := if |rest| < BufferSize then |rest| else BufferSize;
      Chunks(rest) == [rest[..m]] + Chunks(rest[m..])
  {
  }

  /** A whole buffer after a prefix of whole buffers keeps the prefix aligned. */
  lemma AlignedExtend(P: seq<byte>, c: seq<byte>)
    requires |P| % BufferSize == 0 && |c| == BufferSize
    ensures |P + c| % BufferSize == 0
  {
    var q := |P| / BufferSize;
    assert |P + c| == BufferSize * (q + 1);
  }

  /**
   * From the expected state after a prefix `P` of whole chunks, the loop
   * reaches the expected state after `P + rest`, whatever the chunk
   * boundaries, when no line is blank and, as written, the last chunk is not
   * a lone newline.
   */
  lemma {:induction false} DriveExpected(P: seq<byte>, rest: seq<byte>, repaired: bool)
    requires |P| % BufferSize == 0
    requires NoEmptyLines(P + rest)
    requires repaired || !LoneNewlineChunk(P + rest)
    ensures Drive(Expected(P), Chunks(rest), repaired) == Expected(P + rest)
    decreases |rest|
  {
    if rest == [] {
      assert P + rest == P;
    } else {
      var m := if |rest| < BufferSize then |rest| else BufferSize;
      var c := rest[..m];
      var rest' := rest[m..];
      ChunksCons(rest);
      assert rest == c + rest';
      assert P + rest == (P + c) + rest';
      NoEmptyLinesSplit(P + c, rest');
      if c == [NL] && !repaired {
        assert rest == [NL];
        LoneNewlineIsLast(P, rest);
      }
      StepExpected(P, c, repaired);
      if rest' != [] {
        AlignedExtend(P, c);
        DriveExpected(P + c, rest', repaired);
      } else {
        assert P + c == P + rest;
      }
    }
  }

  /** Finishing the expected state of a whole file is reading its lines at once. */
  lemma FinishExpected(bytes: seq<byte>)
    ensures Finish(Expected(bytes)) == ReadLines(bytes)
  {
    var cl := CompleteLines(bytes);
    var last := LastPiece(bytes);
    FoldLinesAppend(Ok(Sentinels), cl, if last == [] then [] else [last]);
    if last == [] {
      assert Lines(bytes) == cl + [];
    }
    match FoldLines(Ok(Sentinels), cl)
    case Err(f) =>
      FoldLinesFailed(f, if last == [] then [] else [last]);
    case Ok(_) =>
  }

  /** Where every reading starts: the expected state of the empty prefix. */
  lemma ExpectedOfEmpty()
    ensures Expected([]) == Reading([], Sentinels)
  {
  }

  /**
   * Chunk independence: on a file without blank lines whose last chunk is
   * not a lone newline, the chunked reader parses exactly the lines of the
   * whole file, so its result does not depend on where the chunks end.
   */
  lemma ReadMatchesLines(bytes: seq<byte>)
    requires NoEmptyLines(bytes) && !LoneNewlineChunk(bytes)
    ensures ReadFile(Mapped(bytes)) == ReadLines(bytes)
  {
    ExpectedOfEmpty();
    assert [] + bytes == bytes;
    DriveExpected([], bytes, false);
    FinishExpected(bytes);
  }

  /** With the repair the same holds for every file without blank lines. */
  lemma ReadRepairedMatchesLines(bytes: seq<byte>)
    requires NoEmptyLines(bytes)
    ensures ReadFileRepaired(Mapped(bytes)) == ReadLines(bytes)
  {
    ExpectedOfEmpty();
    assert [] + bytes == bytes;
    DriveExpected([], bytes, true);
    FinishExpected(bytes);
  }

  /** Reading whole buffers `P` and then a lone newline ends with the step on that newline. */
  lemma DriveThenNewline(P: seq<byte>)
    requires |P| % BufferSize == 0 && NoEmptyLines(P)
    ensures Drive(Reading([], Sentinels), Chunks(P + [NL]), false) == Step(Expected(P), [NL])
  {
    assert [] + P == P;
    ExpectedOfEmpty();
    DriveExpected([], P, false);
    ChunksAppend(P, [NL]);
    assert Chunks([NL]) == [[NL]] by {
      ChunksCons([NL]);
      assert [NL][..1] == [NL] && [NL][1..] == [];
    }
    DriveAppend(Reading([], Sentinels), Chunks(P), [[NL]], false);
    assert [[NL]][1..] == [];
    assert Drive(Expected(P), [[NL]], false) == Drive(Step(Expected(P), [NL]), [], false);
  }

  /** A lone newline while a line is pending is `numbers[0]` of an empty array. */
  lemma NewlineAfterPending(P: seq<byte>)
    requires LastPiece(P) != [] && FoldLines(Ok(Sentinels), CompleteLines(P)).Ok?
    ensures Step(Expected(P), [NL]) == Failed(IndexOutOfBounds)
  {
    SplitLoneNewline();
  }

  /**
   * As written, a file without blank lines whose last chunk is a lone newline
   * ends in `ArrayIndexOutOfBoundsException` unless an earlier complete line
   * fails to parse: the lone newline splits into an empty array and
   * `numbers[0]` is read before the pending line is ever parsed.
   */
  lemma LoneNewlineCrashes(bytes: seq<byte>)
    requires NoEmptyLines(bytes) && LoneNewlineChunk(bytes)
    requires FoldLines(Ok(Sentinels), CompleteLines(bytes[..|bytes| - 1])).Ok?
    ensures ReadFile(Mapped(bytes)) == Err(IndexOutOfBounds)
  {
    var P := LoneNewlineSplit(bytes);
    assert bytes[..|bytes| - 1] == P;
    PendingLineCrashes(P);
  }

  /** A file whose last chunk is a lone newline is whole buffers followed by that newline. */
  lemma LoneNewlineSplit(bytes: seq<byte>) returns (P: seq<byte>)
    requires LoneNewlineChunk(bytes)
    ensures |P| % BufferSize == 0 && bytes == P + [NL]
  {
    P := bytes[..|bytes| - 1];
    var q := |bytes| / BufferSize;
    assert |P| == BufferSize * q;
    assert bytes == P + [bytes[|bytes| - 1]];
  }

  /** The lone newline after whole buffers `P` ends a pending line, and the reader as written fails on it. */
  lemma PendingLineCrashes(P: seq<byte>)
    requires |P| % BufferSize == 0 && NoEmptyLines(P + [NL])
    requires FoldLines(Ok(Sentinels), CompleteLines(P)).Ok?
    ensures ReadFile(Mapped(P + [NL])) == Err(IndexOutOfBounds)
  {
    NoEmptyLinesSplit(P, [NL]);
    DriveThenNewline(P);
    PiecesNewline(P);
    PiecesParts(P);
    var L := LastPiece(P);
    var cl := CompleteLines(P + [NL]);
    assert cl == CompleteLines(P) + [L];
    assert L != [] by {
      assert L == cl[|cl| - 1];
    }
    NewlineAfterPending(P);
  }

  /** When all complete lines of `P` and its pending line parse, so do the complete lines alone. */
  lemma PendingPrefixParses(P: seq<byte>)
    requires FoldLines(Ok(Sentinels), CompleteLines(P + [NL])).Ok?
    ensures FoldLines(Ok(Sentinels), CompleteLines(P)).Ok?
  {
    PiecesNewline(P);
    PiecesParts(P);
    FoldLinesAppend(Ok(Sentinels), CompleteLines(P), [LastPiece(P)]);
    var o := FoldLines(Ok(Sentinels), CompleteLines(P));
    if o.Err? {
      FoldLinesFailed(o.failure, [LastPiece(P)]);
    }
  }

  /** Read at once, a generated file, one 64-bit value per line, gives the pair of its values. */
  lemma ReadLinesOfRender(vs: seq<int>)
    requires forall i :: 0 <= i < |vs| ==> InLongRange(vs[i])
    ensures ReadLines(Render(vs)) == Ok(FoldValues(Sentinels, vs))
  {
    var bytes := Render(vs);
    RenderedPieces(vs);
    assert Lines(bytes) == Formatted(vs) by {
      assert Formatted(vs) + [] == Formatted(vs);
    }
    FoldFormatted(Sentinels, vs);
  }

  /** The repaired reader reads a generated file as the pair of its values. */
  lemma GeneratedFileRepaired(vs: seq<int>)
    requires forall i :: 0 <= i < |vs| ==> InLongRange(vs[i])
    ensures ReadFileRepaired(Mapped(Render(vs))) == Ok(FoldValues(Sentinels, vs))
  {
    var bytes := Render(vs);
    RenderedNoEmptyLines(vs);
    ReadRepairedMatchesLines(bytes);
    ReadLinesOfRender(vs);
  }

  /** As written, the same holds unless the file length is one more than a multiple of the buffer size. */
  lemma GeneratedFileRead(vs: seq<int>)
    requires forall i :: 0 <= i < |vs| ==> InLongRange(vs[i])
    requires |Render(vs)| % BufferSize != 1
    ensures ReadFile(Mapped(Render(vs))) == Ok(FoldValues(Sentinels, vs))
  {
    var bytes := Render(vs);
    RenderedNoEmptyLines(vs);
    ReadMatchesLines(bytes);
    ReadLinesOfRender(vs);
  }

  /** ... and when it is, the generated file crashes the reader as written. */
  lemma GeneratedFileCrashes(vs: seq<int>)
    requires forall i :: 0 <= i < |vs| ==> InLongRange(vs[i])
    requires |Render(vs)| % BufferSize == 1
    ensures ReadFile(Mapped(Render(vs))) == Err(IndexOutOfBounds)
  {
    var bytes := Render(vs);
    RenderedPieces(vs);
    RenderedNoEmptyLines(vs);
    FoldFormatted(Sentinels, vs);
    assert vs != [];
    assert bytes[|bytes| - 1] == NL;
    var P := LoneNewlineSplit(bytes);
    assert bytes[..|bytes| - 1] == P;
    PendingPrefixParses(P);
    LoneNewlineCrashes(bytes);
  }

  /** Both ends are `long`s, so the pair lies within the sentinels and is a unit case of `Merge`. */
  predicate WithinSentinels(p: Pair) {
    InLongRange(p.min) && InLongRange(p.max)
  }

  /**
   * Blank lines make the result depend on the chunk boundaries: the chunk
   * "5\n\n" reads as (5, 5) because `split` drops its trailing blank line,
   * while the same blank line read as a line of the whole file does not parse.
   */
  lemma BlankLineAtChunkEnd()
    ensures ReadFile(Mapped([Zero + 5, NL, NL])) == Ok(Pair(5, 5))
    ensures ReadLines([Zero + 5, NL, NL]) == Err(NumberFormat)
  {
    var s: seq<byte> := [Zero + 5, NL, NL];
    ChunksCons(s);
    assert s[..3] == s && s[3..] == [];
    assert Chunks(s) == [s];
    BlankChunkStep();
    assert [s][1..] == [];
    assert Drive(Reading([], Sentinels), [s], false) == Drive(Reading([], Pair(5, 5)), [], false);
    BlankLineInWholeFile();
  }

  /** The chunk "5\n\n" folds its one line and carries nothing. */
  lemma BlankChunkStep()
    ensures Step(Reading([], Sentinels), [Zero + 5, NL, NL]) == Reading([], Pair(5, 5))
  {
    TrailingBlankLineDropped();
    FiveParses();
    var numbers: seq<seq<byte>> := [[Zero + 5]];
    assert numbers[..1] == numbers;
  }

  /** Read as a whole file, "5\n\n" has a blank second line, which does not parse. */
  lemma BlankLineInWholeFile()
    ensures ReadLines([Zero + 5, NL, NL]) == Err(NumberFormat)
  {
    TrailingBlankLineDropped();
    FiveParses();
    var lines: seq<seq<byte>> := [[Zero + 5], []];
    assert lines[..1] == [[Zero + 5]];
    assert Trim([]) == [];
  }

  /** The line "5" folds into the sentinels as (5, 5). */
  lemma FiveParses()
    ensures FoldLines(Ok(Sentinels), [[Zero + 5]]) == Ok(Pair(5, 5))
  {
    assert FormatLong(5) == [Zero + 5];
    FoldFormatted(Sentinels, [5]);
    assert Formatted([5]) == [[Zero + 5]];
    assert FoldValues(Sentinels, [5]) == Pair(5, 5);
  }

  /** An unreadable file and an empty file both give the sentinel pair. */
  lemma ReadNothing()
    ensures ReadFile(Unreadable) == Ok(Sentinels)
    ensures ReadFile(Mapped([])) == Ok(Sentinels)
  {
  }

  /** A line that fails to parse ends the fold of every longer run of lines. */
  lemma FoldLinesStops(acc: Pair, numbers: seq<seq<byte>>, i: nat, limit: nat)
    requires i < limit <= |numbers|
    requires FoldLines(Ok(acc), numbers[..i + 1]) == Err(NumberFormat)
    ensures FoldLines(Ok(acc), numbers[..limit]) == Err(NumberFormat)
  {
    FoldLinesAppend(Ok(acc), numbers[..i + 1], numbers[i + 1..limit]);
    FoldLinesFailed(NumberFormat, numbers[i + 1..limit]);
    assert numbers[..i + 1] + numbers[i + 1..limit] == numbers[..limit];
  }

  /** The parse-and-fold loop over `numbers[0..limit)`, stopping at the first `NumberFormatException`. */
  method FoldChunkLines(numbers: seq<seq<byte>>, limit: nat, acc: Pair) returns (o: Outcome)
    requires limit <= |numbers|
    ensures o == FoldLines(Ok(acc), numbers[..limit])
  {
    var localMin, localMax := acc.min, acc.max;
    var i := 0;
    while i < limit
      invariant 0 <= i <= limit
      invariant FoldLines(Ok(acc), numbers[..i]) == Ok(Pair(localMin, localMax))
    {
      assert numbers[..i + 1][..i] == numbers[..i];
      match ParseLong(Trim(numbers[i])) {
        case None =>
          FoldLinesStops(acc, numbers, i, limit);
          return Err(NumberFormat);
        case Some(num) =>
          localMin := Min(localMin, num);
          localMax := Max(localMax, num);
      }
      i := i + 1;
    }
    assert numbers[..i] == numbers[..limit];
    o := Ok(Pair(localMin, localMax));
  }

  /**
   * The body of the chunk loop: split the chunk, complete `leftover` with
   * `numbers[0]`, carry the last piece over unless the chunk ends with a
   * newline, and parse the rest.
   */
  method ReadChunk(leftover: seq<byte>, acc: Pair, chunk: seq<byte>) returns (st: ReadState)
    ensures st == Step(Reading(leftover, acc), chunk)
  {
    var numbers := JavaSplit(chunk);
    if |leftover| > 0 {
      if |numbers| == 0 {
        return Failed(IndexOutOfBounds);
      }
      numbers := numbers[0 := leftover + numbers[0]];
    }
    var carried: seq<byte> := [];
    if !EndsWithNewline(chunk) {
      if NL in chunk {
        LastPieceOfUnterminated(chunk);
      }
      carried := numbers[|numbers| - 1];
    }
    var limit := if EndsWithNewline(chunk) then |numbers| else |numbers| - 1;
    var o := FoldChunkLines(numbers, limit, acc);
    st := Resume(o, carried);
  }

  /** The loop from a position inside the file: its next chunk is the next `min(remaining, BUFFER_SIZE)` bytes. */
  lemma DriveUnfold(st: ReadState, bytes: seq<byte>, position: nat, bytesRead: nat)
    requires position < |bytes| && bytesRead == Min(|bytes| - position, BufferSize)
    ensures Drive(st, Chunks(bytes[position..]), false)
         == Drive(Step(st, bytes[position..position + bytesRead]), Chunks(bytes[position + bytesRead..]), false)
  {
    var rest := bytes[position..];
    ChunksCons(rest);
    assert rest[..bytesRead] == bytes[position..position + bytesRead];
    assert rest[bytesRead..] == bytes[position + bytesRead..];
  }

  /** After the loop a pending line is parsed alone. */
  lemma FinishPending(leftover: seq<byte>, acc: Pair)
    requires |leftover| > 0
    ensures Finish(Reading(leftover, acc)) == ParseInto(Ok(acc), leftover)
  {
    var lines := [leftover];
    assert lines[..0] == [];
    assert FoldLines(Ok(acc), lines) == ParseInto(FoldLines(Ok(acc), []), leftover);
  }

  /** `buffer.get(tempBuffer, 0, bytesRead)`: copies the next `bytesRead` mapped bytes into the buffer. */
  method CopyChunk(temp: array<byte>, bytes: seq<byte>, position: nat, bytesRead: nat) returns (chunk: seq<byte>)
    requires bytesRead <= temp.Length && position + bytesRead <= |bytes|
    modifies temp
    ensures temp[..bytesRead] == bytes[position..position + bytesRead]
    ensures chunk == bytes[position..position + bytesRead]
  {
    forall k | 0 <= k < bytesRead {
      temp[k] := bytes[position + k];
    }
    chunk := temp[..bytesRead];
  }

  /**
   * The `while (buffer.hasRemaining())` loop of `findMinMaxInFile`: copies
   * the mapped bytes into a buffer of `BufferSize` bytes a chunk at a time and
   * reads each chunk; an exception ends it early.
   */
  method ReadChunks(bytes: seq<byte>) returns (st: ReadState)
    ensures st == Drive(Reading([], Sentinels), Chunks(bytes), false)
  {
    var localMin, localMax := LongMax, LongMin;
    var temp := new byte[BufferSize];
    var leftover: seq<byte> := [];
    var position := 0;
    ghost var target := Drive(Reading([], Sentinels), Chunks(bytes), false);
    assert bytes[position..] == bytes;
    while position < |bytes|
      invariant 0 <= position <= |bytes|
      invariant Drive(Reading(leftover, Pair(localMin, localMax)), Chunks(bytes[position..]), false) == target
      decreases |bytes| - position
    {
      var bytesRead := Min(|bytes| - position, BufferSize);
      var chunk := CopyChunk(temp, bytes, position, bytesRead);
      DriveUnfold(Reading(leftover, Pair(localMin, localMax)), bytes, position, bytesRead);
      var next := ReadChunk(leftover, Pair(localMin, localMax), chunk);
      position := position + bytesRead;
      match next {
        case Failed(f) =>
          DriveFailed(f, Chunks(bytes[position..]), false);
          return next;
        case Reading(carried, p) =>
          leftover, localMin, localMax := carried, p.min, p.max;
      }
    }
    assert bytes[position..] == [];
    st := Reading(leftover, Pair(localMin, localMax));
  }

  /**
   * `findMinMaxInFile`: reads the chunks, then parses a final `leftover`; an
   * unreadable file gives the sentinel pair.
   */
  method FindMinMaxInFile(file: MappedFile) returns (result: Outcome)
    ensures result == ReadFile(file)
  {
    match file {
      case Unreadable =>
        return Ok(Sentinels);
      case Mapped(bytes) =>
        var st := ReadChunks(bytes);
        match st {
          case Failed(f) =>
            return Err(f);
          case Reading(leftover, p) =>
            var localMin, localMax := p.min, p.max;
            if |leftover| > 0 {
              FinishPending(leftover, p);
              match ParseLong(Trim(leftover)) {
                case None =>
                  return Err(NumberFormat);
                case Some(num) =>
                  localMin := Min(localMin, num);
                  localMax := Max(localMax, num);
              }
            }
            result := Ok(Pair(localMin, localMax));
        }
    }
  }
}
