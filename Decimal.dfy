/**
 * Bytes, decimal digit strings and the text format of the input files: one
 * signed 64-bit value written in decimal per line, each line ended by a newline.
 */
module Decimal {

  type byte = x: int | 0 <= x < 256

  const NL: byte := 10
  const Space: byte := 32
  const Plus: byte := 43
  const Minus: byte := 45
  const Zero: byte := 48
  const Nine: byte := 57

  predicate IsDigit(b: byte) {
    Zero <= b <= Nine
  }

  predicate AllDigits(s: seq<byte>) {
    forall i :: 0 <= i < |s| ==> IsDigit(s[i])
  }

  /** Reads a digit string the way both programs do, `value = value * 10 + digit`, without any width limit. */
  function DigitsValue(ds: seq<byte>): nat
    requires AllDigits(ds)
  {
    if ds == [] then 0 else 10 * DigitsValue(ds[..|ds| - 1]) + (ds[|ds| - 1] - Zero)
  }

  function Pow10(k: nat): (r: nat)
    ensures r >= 1
  {
    if k == 0 then 1 else 10 * Pow10(k - 1)
  }

  /** The positional reading of a digit string d1..dk: the sum of di * 10^(k-i). */
  function PositionalValue(ds: seq<byte>): nat
    requires AllDigits(ds)
  {
    if ds == [] then 0 else (ds[0] - Zero) * Pow10(|ds| - 1) + PositionalValue(ds[1..])
  }

  /** A digit one place further left is worth ten times as much. */
  lemma ShiftDigit(h: int, p: int)
    ensures h * (10 * p) == 10 * (h * p)
  {
  }

  lemma {:induction false} PositionalAppend(ds: seq<byte>, d: byte)
    requires AllDigits(ds) && IsDigit(d)
    ensures PositionalValue(ds + [d]) == 10 * PositionalValue(ds) + (d - Zero)
  {
    if ds != [] {
      assert (ds + [d])[1..] == ds[1..] + [d];
      PositionalAppend(ds[1..], d);
      var h := ds[0] - Zero;
      ShiftDigit(h, Pow10(|ds| - 1));
      calc {
        PositionalValue(ds + [d]);
        h * Pow10(|ds|) + PositionalValue(ds[1..] + [d]);
        h * (10 * Pow10(|ds| - 1)) + 10 * PositionalValue(ds[1..]) + (d - Zero);
        10 * PositionalValue(ds) + (d - Zero);
      }
    } else {
      assert [d][1..] == [];
    }
  }

  /** Accumulating `value * 10 + digit` over d1..dk yields the sum of di * 10^(k-i). */
  lemma {:induction false} AccumulationIsPositional(ds: seq<byte>)
    requires AllDigits(ds)
    ensures DigitsValue(ds) == PositionalValue(ds)
  {
    if ds != [] {
      var init := ds[..|ds| - 1];
      assert ds == init + [ds[|ds| - 1]];
      AccumulationIsPositional(init);
      PositionalAppend(init, ds[|ds| - 1]);
    }
  }

  /** The shortest decimal digits of `n` (no leading zero unless n is 0). */
  function NatDigits(n: nat): (ds: seq<byte>)
    ensures |ds| >= 1 && AllDigits(ds)
    ensures n > 0 ==> ds[0] != Zero
  {
    if n < 10 then [Zero + n] else NatDigits(n / 10) + [Zero + n % 10]
  }

  lemma {:induction false} NatDigitsValue(n: nat)
    ensures DigitsValue(NatDigits(n)) == n
  {
    if n >= 10 {
      var ds := NatDigits(n / 10);
      assert (ds + [Zero + n % 10])[..|ds|] == ds;
      NatDigitsValue(n / 10);
    }
  }

  /** `Long.toString(v)`, which is also how the generator writes a value (`str(v)` in Python). */
  function FormatLong(v: int): (s: seq<byte>)
    ensures |s| >= 1
    ensures NL !in s
  {
    if v < 0 then [Minus] + NatDigits(-v) else NatDigits(v)
  }

  /** A formatted value starts with `-` or a digit. */
  lemma FormatLongStart(v: int)
    ensures FormatLong(v)[0] == Minus || IsDigit(FormatLong(v)[0])
  {
  }

  /** One generated line: the value followed by a newline. */
  function Line(v: int): seq<byte> {
    FormatLong(v) + [NL]
  }

  /** A generated file: every value on its own line, in order. */
  function Render(vs: seq<int>): seq<byte> {
    if vs == [] then [] else Render(vs[..|vs| - 1]) + Line(vs[|vs| - 1])
  }

  /** Concatenation is associative. */
  lemma AppendAssociative(a: seq<byte>, b: seq<byte>, c: seq<byte>)
    ensures (a + b) + c == a + (b + c)
  {
  }

  /** Render also unfolds from the front, one line at a time. */
  lemma {:induction false} RenderCons(v: int, vs: seq<int>)
    ensures Render([v] + vs) == Line(v) + Render(vs)
    decreases |vs|
  {
    var w := [v] + vs;
    if vs == [] {
      assert w[..0] == [];
    } else {
      var init := vs[..|vs| - 1];
      var last := vs[|vs| - 1];
      assert w[..|w| - 1] == [v] + init;
      RenderCons(v, init);
      AppendAssociative(Line(v), Render(init), Line(last));
    }
  }
}
