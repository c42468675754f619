/**
 * Signed 64-bit (min, max) pairs and the two ways both programs combine them:
 * folding single values into a running pair (`localMin = min(localMin, v)`,
 * `localMax = max(localMax, v)`) and merging whole pairs (the global reduction).
 */
module Extrema {

  const LongMin: int := -0x8000_0000_0000_0000
  const LongMax: int := 0x7FFF_FFFF_FFFF_FFFF

  predicate InLongRange(v: int) {
    LongMin <= v <= LongMax
  }

  /** A (min, max) pair: `long[]{min, max}` in Java, two `long`s in C++. */
  datatype Pair = Pair(min: int, max: int)

  /** `(LONG_MAX, LONG_MIN)` / `(Long.MAX_VALUE, Long.MIN_VALUE)`: where every fold starts. */
  const Sentinels: Pair := Pair(LongMax, LongMin)

  /** `std::min` / `Math.min` on values. */
  function Min(a: int, b: int): (r: int)
    ensures r <= a && r <= b && (r == a || r == b)
  {
    if b < a then b else a
  }

  /** `std::max` / `Math.max` on values. */
  function Max(a: int, b: int): (r: int)
    ensures a <= r && b <= r && (r == a || r == b)
  {
    if a < b then b else a
  }

  /** Folds one value into a running pair. */
  function Include(p: Pair, v: int): (r: Pair)
    ensures r.min <= p.min && r.min <= v && (r.min == p.min || r.min == v)
    ensures p.max <= r.max && v <= r.max && (r.max == p.max || r.max == v)
  {
    Pair(Min(p.min, v), Max(p.max, v))
  }

  /** The running pair after folding `vs` into `p` from left to right. */
  function FoldValues(p: Pair, vs: seq<int>): (r: Pair)
    ensures r.min <= p.min && p.max <= r.max
    ensures forall i :: 0 <= i < |vs| ==> r.min <= vs[i] <= r.max
    ensures r.min == p.min || r.min in vs
    ensures r.max == p.max || r.max in vs
  {
    if vs == [] then p
    else
      var init := vs[..|vs| - 1];
      assert vs == init + [vs[|vs| - 1]];
      Include(FoldValues(p, init), vs[|vs| - 1])
  }

  /** Starting from the sentinels, a non-empty run of 64-bit values has its extremes attained. */
  lemma {:induction false} SentinelFoldAttained(vs: seq<int>)
    requires vs != []
    requires forall i :: 0 <= i < |vs| ==> InLongRange(vs[i])
    ensures FoldValues(Sentinels, vs).min in vs
    ensures FoldValues(Sentinels, vs).max in vs
  {
    var r := FoldValues(Sentinels, vs);
    assert r.min <= vs[0] <= r.max;
  }

  /** Folding a concatenation is folding the second part into the result of the first. */
  lemma {:induction false} FoldValuesAppend(p: Pair, a: seq<int>, b: seq<int>)
    ensures FoldValues(p, a + b) == FoldValues(FoldValues(p, a), b)
  {
    if b != [] {
      var b' := b[..|b| - 1];
      assert (a + b)[..|a + b| - 1] == a + b';
      FoldValuesAppend(p, a, b');
    } else {
      assert a + b == a;
    }
  }

  /** Merges two pairs: what `atomic_min`/`atomic_max` and the Java batch folds do. */
  function Merge(a: Pair, b: Pair): (r: Pair)
    ensures r.min <= a.min && r.min <= b.min && (r.min == a.min || r.min == b.min)
    ensures a.max <= r.max && b.max <= r.max && (r.max == a.max || r.max == b.max)
  {
    Pair(Min(a.min, b.min), Max(a.max, b.max))
  }

  /**
   * Merging is associative, commutative and idempotent, and the sentinels are
   * its unit on 64-bit pairs: the merge order cannot change the result.
   */
  lemma MergeIsSemilattice(a: Pair, b: Pair, c: Pair)
    ensures Merge(Merge(a, b), c) == Merge(a, Merge(b, c))
    ensures Merge(a, b) == Merge(b, a)
    ensures Merge(Merge(a, b), b) == Merge(a, b)
    ensures a.min <= LongMax && LongMin <= a.max ==> Merge(a, Sentinels) == a
  {
  }

  /**
   * Folding values into any pair is merging that pair with the fold of the
   * same values from the sentinels: a per-file pair can be computed on its own
   * and merged later.
   */
  lemma {:induction false} FoldValuesIsMerge(p: Pair, vs: seq<int>)
    requires p.min <= LongMax && LongMin <= p.max
    ensures FoldValues(p, vs) == Merge(p, FoldValues(Sentinels, vs))
  {
    if vs != [] {
      FoldValuesIsMerge(p, vs[..|vs| - 1]);
    }
  }
}
