/**
 * The byte scanner of the C++ program (`process_file`, minmaxopt.cpp): it
 * walks the mapped bytes once, records one value per outer iteration and folds
 * every value into a local (min, max) pair.
 *
 * The accumulator is a 64-bit `long` with no overflow check. The model makes
 * the machine's two's-complement wrap-around explicit (Wrap64) after every
 * `num * 10 + d` and after the negation; C++ itself leaves signed overflow
 * undefined.
 */
module Scanner {
  import opened Decimal
  import opened Extrema

  const Modulus: int := 0x1_0000_0000_0000_0000

  /** The `long` that holds `x` after two's-complement wrap-around. */
  function Wrap64(x: int): (r: int)
    ensures InLongRange(r)
    ensures InLongRange(x) ==> r == x
  {
    if InLongRange(x) then x else (x - LongMin) % Modulus + LongMin
  }

  /** Wrap-around is reduction modulo 2^64 into the `long` range. */
  lemma WrapIsModular(x: int)
    ensures Wrap64(x) == (x - LongMin) % Modulus + LongMin
  {
    if InLongRange(x) {
      assert 0 <= x - LongMin < Modulus;
    }
  }

  /** Values that differ by a multiple of 2^64 wrap to the same `long`. */
  lemma WrapShift(x: int, k: int)
    ensures Wrap64(x + Modulus * k) == Wrap64(x)
  {
    var a := x - LongMin;
    var q, r := a / Modulus, a % Modulus;
    assert a + Modulus * k == Modulus * (q + k) + r;
    WrapIsModular(x);
    WrapIsModular(x + Modulus * k);
  }

  lemma WrapOfWrap(x: int, c: int, d: int)
    ensures Wrap64(c * Wrap64(x) + d) == Wrap64(c * x + d)
  {
    var q := (x - LongMin) / Modulus;
    WrapIsModular(x);
    assert Wrap64(x) == x - Modulus * q;
    assert c * Wrap64(x) + d == (c * x + d) + Modulus * (-c * q);
    WrapShift(c * x + d, -c * q);
  }

  /** The accumulator after the digit loop: `num = num * 10 + (*ptr - '0')` on a `long`. */
  function Accumulate(ds: seq<byte>): (num: int)
    requires AllDigits(ds)
    ensures InLongRange(num)
  {
    if ds == [] then 0 else Wrap64(Accumulate(ds[..|ds| - 1]) * 10 + (ds[|ds| - 1] - Zero))
  }

  /** Wrapping after every step gives the wrap of the exact decimal value. */
  lemma {:induction false} AccumulateIsWrappedValue(ds: seq<byte>)
    requires AllDigits(ds)
    ensures Accumulate(ds) == Wrap64(DigitsValue(ds))
  {
    if ds != [] {
      var init := ds[..|ds| - 1];
      AccumulateIsWrappedValue(init);
      WrapOfWrap(DigitsValue(init), 10, ds[|ds| - 1] - Zero);
    }
  }

  /** The exact value a sign and a digit run denote. */
  function SignedValue(negative: bool, ds: seq<byte>): int
    requires AllDigits(ds)
  {
    var magnitude: int := DigitsValue(ds);
    if negative then -magnitude else magnitude
  }

  /** The value one outer iteration records: the accumulator, negated (`num = -num`) after a leading `-`. */
  function TokenValue(negative: bool, ds: seq<byte>): (v: int)
    requires AllDigits(ds)
    ensures InLongRange(v)
  {
    if negative then Wrap64(-Accumulate(ds)) else Accumulate(ds)
  }

  /**
   * The recorded value is the exact signed value reduced to 64 bits; so every
   * token whose value fits in a `long`, -2^63 included, is recorded exactly.
   */
  lemma TokenValueIsWrappedValue(negative: bool, ds: seq<byte>)
    requires AllDigits(ds)
    ensures TokenValue(negative, ds) == Wrap64(SignedValue(negative, ds))
    ensures InLongRange(SignedValue(negative, ds)) ==> TokenValue(negative, ds) == SignedValue(negative, ds)
  {
    AccumulateIsWrappedValue(ds);
    WrapOfWrap(DigitsValue(ds), -1, 0);
  }

  /** A byte the skip loop passes over: neither a digit nor `-`. */
  predicate IsDelimiter(b: byte) {
    !IsDigit(b) && b != Minus
  }

  /** Length of the digit run at the front of `s`, as far as the digit loop reads. */
  function DigitRunLength(s: seq<byte>): (n: nat)
    ensures n <= |s|
    ensures AllDigits(s[..n])
    ensures n == |s| || !IsDigit(s[n])
  {
    if s != [] && IsDigit(s[0]) then
      var n := 1 + DigitRunLength(s[1..]);
      assert forall i :: 1 <= i < n ==> s[..n][i] == s[1..][..n - 1][i - 1];
      n
    else 0
  }

  /** Length of the delimiter run at the front of `s`: the skip loop stops at a digit, a `-` or the end. */
  function DelimiterRunLength(s: seq<byte>): (n: nat)
    ensures n <= |s|
    ensures forall i :: 0 <= i < n ==> IsDelimiter(s[i])
    ensures n == |s| || !IsDelimiter(s[n])
  {
    if s != [] && IsDelimiter(s[0]) then 1 + DelimiterRunLength(s[1..]) else 0
  }

  /** What one outer iteration reads: the sign, the digit run after it and how many bytes it consumes. */
  datatype Iteration = Iteration(negative: bool, digits: seq<byte>, consumed: nat)

  /**
   * The outer iteration at the front of `s`: an optional `-`, the maximal digit
   * run after it (possibly empty, which records 0), then the delimiter run that
   * is skipped. It always consumes at least one byte.
   */
  function FirstIteration(s: seq<byte>): (it: Iteration)
    requires s != []
    ensures AllDigits(it.digits)
    ensures 1 <= it.consumed <= |s|
  {
    var negative := s[0] == Minus;
    var t := if negative then s[1..] else s;
    var k := DigitRunLength(t);
    var j := DelimiterRunLength(t[k..]);
    assert !negative && k == 0 ==> j >= 1;
    Iteration(negative, t[..k], |s| - |t| + k + j)
  }

  /** The values the scan records, one per outer iteration. */
  function Tokens(s: seq<byte>): (vs: seq<int>)
    ensures |vs| <= |s|
    ensures s != [] ==> |vs| >= 1
    decreases |s|
  {
    if s == [] then []
    else
      var it := FirstIteration(s);
      [TokenValue(it.negative, it.digits)] + Tokens(s[it.consumed..])
  }

  /** Every recorded value is a `long`. */
  lemma {:induction false} TokensInRange(s: seq<byte>)
    ensures forall i :: 0 <= i < |Tokens(s)| ==> InLongRange(Tokens(s)[i])
    decreases |s|
  {
    if s != [] {
      TokensInRange(s[FirstIteration(s).consumed..]);
    }
  }

  /** The local pair of one mapped file: the fold of its recorded values from the sentinels. */
  function LocalExtremum(data: seq<byte>): Pair {
    FoldValues(Sentinels, Tokens(data))
  }

  /** Slicing a suffix is slicing the whole buffer further along. */
  lemma SuffixSlices(data: seq<byte>, a: nat, b: nat)
    requires a + b <= |data|
    ensures data[a..][..b] == data[a..a + b]
    ensures data[a..][b..] == data[a + b..]
  {
  }

  /** The outer iteration at `start`, stated on positions of the whole buffer. */
  lemma FirstIterationAt(data: seq<byte>, start: nat, digitsFrom: nat, digitsTo: nat, next: nat)
    requires start < |data|
    requires digitsFrom == if data[start] == Minus then start + 1 else start
    requires digitsFrom <= |data| && digitsTo == digitsFrom + DigitRunLength(data[digitsFrom..])
    requires next == digitsTo + DelimiterRunLength(data[digitsTo..])
    requires AllDigits(data[digitsFrom..digitsTo])
    ensures FirstIteration(data[start..]) == Iteration(data[start] == Minus, data[digitsFrom..digitsTo], next - start)
  {
    var s := data[start..];
    assert s[0] == data[start];
    SuffixSlices(data, start, digitsFrom - start);
    var t := if data[start] == Minus then s[1..] else s;
    assert t == data[digitsFrom..];
    var k := DigitRunLength(t);
    SuffixSlices(data, digitsFrom, k);
    assert t[..k] == data[digitsFrom..digitsTo];
    assert t[k..] == data[digitsTo..];
  }

  /** One outer iteration of the scan, stated on positions of the whole buffer. */
  lemma TokensUnfold(data: seq<byte>, start: nat, digitsFrom: nat, digitsTo: nat, next: nat)
    requires start < |data|
    requires digitsFrom == if data[start] == Minus then start + 1 else start
    requires digitsFrom <= |data| && digitsTo == digitsFrom + DigitRunLength(data[digitsFrom..])
    requires next == digitsTo + DelimiterRunLength(data[digitsTo..])
    requires AllDigits(data[digitsFrom..digitsTo])
    ensures Tokens(data[start..]) == [TokenValue(data[start] == Minus, data[digitsFrom..digitsTo])] + Tokens(data[next..])
  {
    var s := data[start..];
    var value := TokenValue(data[start] == Minus, data[digitsFrom..digitsTo]);
    FirstIterationAt(data, start, digitsFrom, digitsTo, next);
    assert s[next - start..] == data[next..] by {
      SuffixSlices(data, start, next - start);
    }
    var it := FirstIteration(s);
    assert Tokens(s) == [TokenValue(it.negative, it.digits)] + Tokens(s[it.consumed..]);
    assert it == Iteration(data[start] == Minus, data[digitsFrom..digitsTo], next - start);
    assert it.negative == (data[start] == Minus);
    assert it.digits == data[digitsFrom..digitsTo];
    assert it.consumed == next - start;
    assert s[it.consumed..] == data[next..];
    assert TokenValue(it.negative, it.digits) == value;
    assert Tokens(s[it.consumed..]) == Tokens(data[next..]);
  }

  /** The digit loop `while (ptr < end && '0' <= *ptr <= '9') num = num * 10 + (*ptr++ - '0')`, from `from`. */
  method AccumulateDigits(data: seq<byte>, from: nat) returns (num: int, ptr: nat)
    requires from <= |data|
    ensures ptr == from + DigitRunLength(data[from..])
    ensures AllDigits(data[from..ptr])
    ensures num == Accumulate(data[from..ptr])
  {
    ptr := from;
    num := 0;
    while ptr < |data| && IsDigit(data[ptr])
      invariant from <= ptr <= |data|
      invariant AllDigits(data[from..ptr])
      invariant DigitRunLength(data[from..]) == (ptr - from) + DigitRunLength(data[ptr..])
      invariant num == Accumulate(data[from..ptr])
    {
      AccumulateExtend(data, from, ptr);
      num := Wrap64(num * 10 + (data[ptr] - Zero));
      ptr := ptr + 1;
    }
  }

  /** One more digit at `ptr` extends the run read from `from`. */
  lemma AccumulateExtend(data: seq<byte>, from: nat, ptr: nat)
    requires from <= ptr < |data| && IsDigit(data[ptr]) && AllDigits(data[from..ptr])
    ensures AllDigits(data[from..ptr + 1])
    ensures Accumulate(data[from..ptr + 1]) == Wrap64(Accumulate(data[from..ptr]) * 10 + (data[ptr] - Zero))
    ensures DigitRunLength(data[ptr..]) == 1 + DigitRunLength(data[ptr + 1..])
  {
    var ds := data[from..ptr + 1];
    assert ds == data[from..ptr] + [data[ptr]];
    assert ds[..|ds| - 1] == data[from..ptr];
    assert data[ptr..][1..] == data[ptr + 1..];
  }

  /** Reads one value at `start`: an optional `-`, the digit loop, then the negation. */
  method ReadValue(data: seq<byte>, start: nat) returns (num: int, ptr: nat)
    requires start < |data|
    ensures var from := if data[start] == Minus then start + 1 else start;
      && ptr == from + DigitRunLength(data[from..])
      && AllDigits(data[from..ptr])
      && num == TokenValue(data[start] == Minus, data[from..ptr])
  {
    var negative := data[start] == Minus;
    var from := if negative then start + 1 else start;
    num, ptr := AccumulateDigits(data, from);
    if negative {
      num := Wrap64(-num);
    }
  }

  /** The skip loop: advance while the byte is neither a digit nor `-`. */
  method SkipDelimiters(data: seq<byte>, from: nat) returns (ptr: nat)
    requires from <= |data|
    ensures ptr == from + DelimiterRunLength(data[from..])
  {
    ptr := from;
    while ptr < |data| && (data[ptr] < Zero || data[ptr] > Nine) && data[ptr] != Minus
      invariant from <= ptr <= |data|
      invariant DelimiterRunLength(data[from..]) == (ptr - from) + DelimiterRunLength(data[ptr..])
    {
      assert data[ptr..][1..] == data[ptr + 1..];
      ptr := ptr + 1;
    }
  }

  /** Folding one outer iteration's value first leaves the fold of the rest of the buffer to do. */
  lemma ScanStep(data: seq<byte>, start: nat, digitsTo: nat, next: nat, num: int, p: Pair)
    requires start < |data|
    requires var from := if data[start] == Minus then start + 1 else start;
      && digitsTo == from + DigitRunLength(data[from..])
      && AllDigits(data[from..digitsTo])
      && num == TokenValue(data[start] == Minus, data[from..digitsTo])
    requires digitsTo <= |data| && next == digitsTo + DelimiterRunLength(data[digitsTo..])
    ensures FoldValues(Include(p, num), Tokens(data[next..])) == FoldValues(p, Tokens(data[start..]))
  {
    var from := if data[start] == Minus then start + 1 else start;
    assert FoldValues(p, [num]) == Include(p, num) by {
      assert [num][..0] == [];
    }
    FoldValuesAppend(p, [num], Tokens(data[next..]));
    TokensUnfold(data, start, from, digitsTo, next);
  }

  /**
   * The scan loop of `process_file` over the `fileSize` mapped bytes. Each
   * outer iteration reads an optional `-`, accumulates the digit run, negates,
   * folds the value into (localMin, localMax) and skips to the next digit or `-`.
   */
  method Scan(data: seq<byte>) returns (localMin: int, localMax: int)
    ensures Pair(localMin, localMax) == LocalExtremum(data)
    ensures forall i :: 0 <= i < |Tokens(data)| ==> localMin <= Tokens(data)[i] <= localMax
    ensures data != [] ==> localMin in Tokens(data) && localMax in Tokens(data)
  {
    localMin, localMax := LongMax, LongMin;
    var ptr := 0;
    assert data[0..] == data;
    while ptr < |data|
      invariant 0 <= ptr <= |data|
      invariant FoldValues(Pair(localMin, localMax), Tokens(data[ptr..])) == LocalExtremum(data)
      decreases |data| - ptr
    {
      ghost var start, before := ptr, Pair(localMin, localMax);
      var num, digitsTo := ReadValue(data, ptr);
      localMin := Min(localMin, num);
      localMax := Max(localMax, num);
      ptr := SkipDelimiters(data, digitsTo);
      ScanStep(data, start, digitsTo, ptr, num, before);
    }
    assert data[ptr..] == [];
    LocalExtremumBounds(data);
  }

  /** The local pair bounds every recorded value, and a non-empty file attains both of its ends. */
  lemma LocalExtremumBounds(data: seq<byte>)
    ensures var p := LocalExtremum(data);
      && (forall i :: 0 <= i < |Tokens(data)| ==> p.min <= Tokens(data)[i] <= p.max)
      && (data != [] ==> p.min in Tokens(data) && p.max in Tokens(data))
  {
    if data != [] {
      TokensInRange(data);
      SentinelFoldAttained(Tokens(data));
    }
  }

  /** A file made only of delimiters still runs one outer iteration, which records 0. */
  lemma DelimiterOnlyRecordsZero(data: seq<byte>)
    requires data != []
    requires forall i :: 0 <= i < |data| ==> IsDelimiter(data[i])
    ensures Tokens(data) == [0]
    ensures LocalExtremum(data) == Pair(0, 0)
  {
    assert DigitRunLength(data) == 0;
    assert DelimiterRunLength(data) == |data|;
    assert data[|data|..] == [];
  }

  /** A `-` between two digit runs starts a new value: "5-3" records 5 and -3. */
  lemma MinusSplitsValues()
    ensures Tokens([Zero + 5, Minus, Zero + 3]) == [5, -3]
  {
    var s: seq<byte> := [Zero + 5, Minus, Zero + 3];
    assert DigitRunLength(s[2..]) == 1;
    assert DigitRunLength(s[1..][1..]) == 1;
    assert s[1..][1..][..1] == [Zero + 3];
    assert Accumulate([Zero + 3]) == 3 by {
      assert [Zero + 3][..0] == [];
    }
    assert Tokens(s[1..]) == [-3] by {
      assert s[1..][1..][1..] == [];
    }
    assert DigitRunLength(s) == 1;
    assert s[..1] == [Zero + 5];
    assert Accumulate([Zero + 5]) == 5 by {
      assert [Zero + 5][..0] == [];
    }
  }

  /** A `-` followed by another `-` records 0: "--5" records 0 and -5, and a lone "-" records 0. */
  lemma DoubleMinusRecordsZero()
    ensures Tokens([Minus, Minus, Zero + 5]) == [0, -5]
    ensures Tokens([Minus]) == [0]
  {
    var s: seq<byte> := [Minus, Minus, Zero + 5];
    assert DigitRunLength(s[1..]) == 0;
    assert s[1..][0..] == s[1..];
    assert DigitRunLength(s[1..][1..]) == 1;
    assert s[1..][1..][..1] == [Zero + 5];
    assert Accumulate([Zero + 5]) == 5 by {
      assert [Zero + 5][..0] == [];
    }
    assert Tokens(s[1..]) == [-5] by {
      assert s[1..][1..][1..] == [];
    }
    assert [Minus][1..] == [];
  }

  /** The digit run of `ds + ([x] + r)` stops at the non-digit `x`. */
  lemma {:induction false} DigitRunStops(ds: seq<byte>, x: byte, r: seq<byte>)
    requires AllDigits(ds) && !IsDigit(x)
    ensures DigitRunLength(ds + ([x] + r)) == |ds|
  {
    if ds != [] {
      assert (ds + ([x] + r))[1..] == ds[1..] + ([x] + r);
      DigitRunStops(ds[1..], x, r);
    }
  }

  /** The text after a line's digits: the newline is the only delimiter skipped. */
  lemma NewlineSkipped(r: seq<byte>)
    requires r == [] || !IsDelimiter(r[0])
    ensures DelimiterRunLength([NL] + r) == 1
    ensures ([NL] + r)[1..] == r
  {
    assert ([NL] + r)[1..] == r;
  }

  /** The outer iteration on a line of an optional `-`, a digit run and a newline consumes exactly that line. */
  lemma DigitsLineIteration(negative: bool, ds: seq<byte>, r: seq<byte>)
    requires AllDigits(ds) && ds != []
    requires r == [] || !IsDelimiter(r[0])
    ensures var sign: seq<byte> := if negative then [Minus] else [];
      FirstIteration(sign + (ds + ([NL] + r))) == Iteration(negative, ds, |sign| + |ds| + 1)
  {
    var sign: seq<byte> := if negative then [Minus] else [];
    var tail := [NL] + r;
    var t := ds + tail;
    var s := sign + t;
    assert t[0] == ds[0];
    assert IsDigit(ds[0]);
    assert s[0] == Minus <==> negative;
    assert (if negative then s[1..] else s) == t;
    DigitRunStops(ds, NL, r);
    assert t[..|ds|] == ds;
    assert t[|ds|..] == tail;
    NewlineSkipped(r);
  }

  /** A line of an optional `-`, a digit run and a newline records one value. */
  lemma DigitsLineTokens(negative: bool, ds: seq<byte>, r: seq<byte>)
    requires AllDigits(ds) && ds != []
    requires r == [] || !IsDelimiter(r[0])
    ensures Tokens((if negative then [Minus] else []) + (ds + ([NL] + r))) == [TokenValue(negative, ds)] + Tokens(r)
  {
    var sign: seq<byte> := if negative then [Minus] else [];
    var s := sign + (ds + ([NL] + r));
    DigitsLineIteration(negative, ds, r);
    var it := FirstIteration(s);
    assert it == Iteration(negative, ds, |sign| + |ds| + 1);
    assert s[it.consumed..] == r;
    assert Tokens(s) == [TokenValue(it.negative, it.digits)] + Tokens(s[it.consumed..]);
  }

  /** The digits `Long.toString` writes for a 64-bit value read back as that value. */
  lemma FormattedValue(v: int)
    requires InLongRange(v)
    ensures TokenValue(v < 0, NatDigits(if v < 0 then -v else v)) == v
  {
    var ds := NatDigits(if v < 0 then -v else v);
    NatDigitsValue(if v < 0 then -v else v);
    TokenValueIsWrappedValue(v < 0, ds);
  }

  /** The scan reads one generated line `Long.toString(v) + "\n"` as exactly `v`. */
  lemma LineTokens(v: int, r: seq<byte>)
    requires InLongRange(v)
    requires r == [] || !IsDelimiter(r[0])
    ensures Tokens(Line(v) + r) == [v] + Tokens(r)
  {
    var ds := NatDigits(if v < 0 then -v else v);
    var sign: seq<byte> := if v < 0 then [Minus] else [];
    assert FormatLong(v) == sign + ds;
    AppendAssociative(sign + ds, [NL], r);
    AppendAssociative(sign, ds, [NL] + r);
    DigitsLineTokens(v < 0, ds, r);
    FormattedValue(v);
  }

  /**
   * On a file written one value per line, as the generator writes them, the
   * scan records exactly the written values, in order.
   */
  lemma {:induction false} RenderedTokens(vs: seq<int>)
    requires forall i :: 0 <= i < |vs| ==> InLongRange(vs[i])
    ensures Tokens(Render(vs)) == vs
    decreases |vs|
  {
    if vs != [] {
      var tail := vs[1..];
      assert [vs[0]] + tail == vs;
      RenderCons(vs[0], tail);
      RenderStart(tail);
      LineTokens(vs[0], Render(tail));
      RenderedTokens(tail);
    }
  }

  /** A generated file starts with a digit or `-`, never with a delimiter. */
  lemma RenderStart(vs: seq<int>)
    ensures Render(vs) == [] || !IsDelimiter(Render(vs)[0])
  {
    if vs != [] {
      assert [vs[0]] + vs[1..] == vs;
      RenderCons(vs[0], vs[1..]);
      assert Render(vs)[0] == FormatLong(vs[0])[0];
      FormatLongStart(vs[0]);
    }
  }

  /** So the local pair of a generated file is the pair of its values. */
  lemma RenderedExtremum(vs: seq<int>)
    requires forall i :: 0 <= i < |vs| ==> InLongRange(vs[i])
    ensures LocalExtremum(Render(vs)) == FoldValues(Sentinels, vs)
  {
    RenderedTokens(vs);
  }
}
