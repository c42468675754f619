/**
 * `String.trim()` and `Long.parseLong(String)` on ASCII text, as the Java
 * reader applies them to every line.
 */
module LongParse {
  import opened Decimal
  import opened Extrema

  datatype Option<T> = None | Some(value: T)

  /** `trim` removes every character up to and including the space, U+0020. */
  predicate IsTrimmed(b: byte) {
    b <= Space
  }

  /** Drops the leading characters `trim` removes. */
  function TrimStart(s: seq<byte>): (r: seq<byte>)
    ensures |r| <= |s| && r == s[|s| - |r|..]
    ensures forall k :: 0 <= k < |s| - |r| ==> IsTrimmed(s[k])
    ensures r == [] || !IsTrimmed(r[0])
  {
    if s != [] && IsTrimmed(s[0]) then
      var r := TrimStart(s[1..]);
      assert s[1..][|s| - 1 - |r|..] == s[|s| - |r|..];
      r
    else s
  }

  /** Drops the trailing characters `trim` removes. */
  function TrimEnd(s: seq<byte>): (r: seq<byte>)
    ensures |r| <= |s| && r == s[..|r|]
    ensures forall k :: |r| <= k < |s| ==> IsTrimmed(s[k])
    ensures r == [] || !IsTrimmed(r[|r| - 1])
  {
    if s != [] && IsTrimmed(s[|s| - 1]) then
      var r := TrimEnd(s[..|s| - 1]);
      assert s[..|s| - 1][..|r|] == s[..|r|];
      r
    else s
  }

  /** `String.trim()`. */
  function Trim(s: seq<byte>): (r: seq<byte>)
    ensures |r| <= |s|
    ensures r == [] || (!IsTrimmed(r[0]) && !IsTrimmed(r[|r| - 1]))
    ensures r == [] ==> forall k :: 0 <= k < |s| ==> IsTrimmed(s[k])
  {
    TrimEnd(TrimStart(s))
  }

  /**
   * `Long.parseLong(s)`: an optional `-` or `+`, then at least one decimal
   * digit and nothing else, denoting a value within the `long` range;
   * anything else is a `NumberFormatException`, modelled as None.
   */
  function ParseLong(s: seq<byte>): (r: Option<int>)
    ensures r.Some? ==> InLongRange(r.value)
  {
    if s == [] then None
    else
      var signed := s[0] == Minus || s[0] == Plus;
      var ds := if signed then s[1..] else s;
      if ds == [] || !AllDigits(ds) then None
      else
        var magnitude: int := DigitsValue(ds);
        var v := if s[0] == Minus then -magnitude else magnitude;
        if InLongRange(v) then Some(v) else None
  }

  /** A byte that is neither a digit nor a leading sign makes the line throw. */
  lemma ParseRejectsStray(s: seq<byte>, k: nat)
    requires k < |s| && !IsDigit(s[k])
    requires k > 0 || (s[k] != Minus && s[k] != Plus)
    ensures ParseLong(s) == None
  {
    var ds := if s[0] == Minus || s[0] == Plus then s[1..] else s;
    if s[0] == Minus || s[0] == Plus {
      assert k > 0 && ds[k - 1] == s[k];
    } else {
      assert ds[k] == s[k];
    }
  }

  /** Text with nothing `trim` removes at either end is left as it is. */
  lemma TrimUntrimmable(s: seq<byte>)
    requires s == [] || (!IsTrimmed(s[0]) && !IsTrimmed(s[|s| - 1]))
    ensures Trim(s) == s
  {
  }

  /** `Long.toString` output has nothing to trim. */
  lemma FormatLongTrimmed(v: int)
    ensures Trim(FormatLong(v)) == FormatLong(v)
  {
    var s := FormatLong(v);
    var last := s[|s| - 1];
    assert IsDigit(last) by {
      if v < 0 {
        assert last == NatDigits(-v)[|NatDigits(-v)| - 1];
      }
    }
    TrimUntrimmable(s);
  }

  /** Unsigned digits parse to their value when it fits. */
  lemma ParseDigits(ds: seq<byte>)
    requires ds != [] && AllDigits(ds)
    ensures ParseLong(ds) == if DigitsValue(ds) <= LongMax then Some(DigitsValue(ds)) else None
  {
    assert IsDigit(ds[0]);
  }

  /** A minus sign and digits parse to the negated value when it fits. */
  lemma ParseNegatedDigits(ds: seq<byte>)
    requires ds != [] && AllDigits(ds)
    ensures ParseLong([Minus] + ds) == if LongMin <= -(DigitsValue(ds) as int) then Some(-(DigitsValue(ds) as int)) else None
  {
    assert ([Minus] + ds)[1..] == ds;
  }

  /**
   * `Long.parseLong(Long.toString(v))` gives `v` back for every 64-bit `v`,
   * and fails for a value written in decimal outside the `long` range.
   */
  lemma ParseFormatLong(v: int)
    ensures ParseLong(FormatLong(v)) == if InLongRange(v) then Some(v) else None
  {
    var s := FormatLong(v);
    if v < 0 {
      var ds := NatDigits(-v);
      NatDigitsValue(-v);
      ParseNegatedDigits(ds);
      assert s == [Minus] + ds;
    } else {
      var ds := NatDigits(v);
      NatDigitsValue(v);
      ParseDigits(ds);
      assert s == ds;
    }
  }

  /** So the trimmed text of `Long.toString(v)` parses back to `v`, for every 64-bit `v`. */
  lemma ParseFormatted(v: int)
    requires InLongRange(v)
    ensures ParseLong(Trim(FormatLong(v))) == Some(v)
  {
    FormatLongTrimmed(v);
    ParseFormatLong(v);
  }

  /** A blank line, empty or made only of characters `trim` removes, does not parse. */
  lemma ParseBlank(s: seq<byte>)
    requires forall k :: 0 <= k < |s| ==> IsTrimmed(s[k])
    ensures Trim(s) == [] && ParseLong(Trim(s)) == None
  {
  }

  /** A sign alone does not parse. */
  lemma ParseSignAlone()
    ensures ParseLong([Minus]) == None && ParseLong([Plus]) == None
  {
    assert [Minus][1..] == [];
    assert [Plus][1..] == [];
  }
}
