/**
 * Newline-separated text as the Java reader sees it: the pieces between
 * newlines, `String.split("\n")` (which drops trailing empty strings), and the
 * lines of a whole file.
 */
module LineSplit {
  import opened Decimal

  /**
   * The text cut at every newline, empty pieces kept: a text with k newlines
   * has k + 1 pieces, and the last one is what follows the last newline.
   */
  function Pieces(s: seq<byte>): (ps: seq<seq<byte>>)
    ensures |ps| >= 1
  {
    if s == [] then [[]]
    else
      var init := Pieces(s[..|s| - 1]);
      var b := s[|s| - 1];
      if b == NL then init + [[]]
      else init[..|init| - 1] + [init[|init| - 1] + [b]]
  }

  /** The pieces that a newline ends. */
  function CompleteLines(s: seq<byte>): seq<seq<byte>> {
    Pieces(s)[..|Pieces(s)| - 1]
  }

  /** What follows the last newline (all of `s` when it has none). */
  function LastPiece(s: seq<byte>): seq<byte> {
    Pieces(s)[|Pieces(s)| - 1]
  }

  /** The pieces are the complete lines followed by the last piece. */
  lemma PiecesParts(s: seq<byte>)
    ensures Pieces(s) == CompleteLines(s) + [LastPiece(s)]
  {
  }

  /** One more byte: a newline starts a new empty piece, any other byte extends the last piece. */
  lemma PiecesSnoc(s: seq<byte>, b: byte)
    ensures b == NL ==> Pieces(s + [b]) == Pieces(s) + [[]]
    ensures b != NL ==> Pieces(s + [b]) == CompleteLines(s) + [LastPiece(s) + [b]]
    ensures b == NL ==> CompleteLines(s + [b]) == Pieces(s) && LastPiece(s + [b]) == []
    ensures b != NL ==> CompleteLines(s + [b]) == CompleteLines(s) && LastPiece(s + [b]) == LastPiece(s) + [b]
  {
    assert (s + [b])[..|s|] == s;
    var r := Pieces(s + [b]);
    if b != NL {
      assert r[..|r| - 1] == CompleteLines(s);
    }
  }

  /** The last piece never holds a newline. */
  lemma {:induction false} LastPieceLineFree(s: seq<byte>)
    ensures NL !in LastPiece(s)
  {
    if s != [] {
      var s' := s[..|s| - 1];
      assert s == s' + [s[|s| - 1]];
      LastPieceLineFree(s');
      PiecesSnoc(s', s[|s| - 1]);
    }
  }

  /** Puts the pieces back together with a newline between neighbours. */
  function Join(ps: seq<seq<byte>>): seq<byte>
    requires |ps| >= 1
  {
    if |ps| == 1 then ps[0] else Join(ps[..|ps| - 1]) + [NL] + ps[|ps| - 1]
  }

  /** Cutting at the newlines and joining again gives the text back. */
  lemma {:induction false} JoinPieces(s: seq<byte>)
    ensures Join(Pieces(s)) == s
  {
    if s != [] {
      var s' := s[..|s| - 1];
      var b := s[|s| - 1];
      assert s == s' + [b];
      JoinPieces(s');
      if b == NL {
        JoinNewline(s');
      } else {
        JoinExtend(s', b);
      }
    }
  }

  /** The step of JoinPieces for a newline: an empty piece is joined on. */
  lemma JoinNewline(s: seq<byte>)
    requires Join(Pieces(s)) == s
    ensures Join(Pieces(s + [NL])) == s + [NL]
  {
    PiecesNewline(s);
    var ps := Pieces(s + [NL]);
    assert ps[..|ps| - 1] == Pieces(s);
    assert Join(ps) == s + [NL] + [];
  }

  /** The step of JoinPieces for any other byte: the last piece grows by it. */
  lemma JoinExtend(s: seq<byte>, b: byte)
    requires b != NL && Join(Pieces(s)) == s
    ensures Join(Pieces(s + [b])) == s + [b]
  {
    PiecesSnoc(s, b);
    PiecesParts(s);
    var ps := Pieces(s + [b]);
    var cl, last := CompleteLines(s), LastPiece(s);
    if cl == [] {
      assert ps == [last + [b]];
      assert Pieces(s) == [last];
    } else {
      assert ps[..|ps| - 1] == cl;
      assert Pieces(s)[..|Pieces(s)| - 1] == cl;
      assert s == Join(cl) + [NL] + last;
      assert Join(ps) == Join(cl) + [NL] + (last + [b]);
      AppendAssociative(Join(cl) + [NL], last, [b]);
    }
  }

  /** Appending newline-free text extends the last piece. */
  lemma {:induction false} PiecesAppendLineFree(s: seq<byte>, t: seq<byte>)
    requires NL !in t
    ensures CompleteLines(s + t) == CompleteLines(s) && LastPiece(s + t) == LastPiece(s) + t
    decreases |t|
  {
    if t == [] {
      assert s + t == s;
    } else {
      var t' := t[..|t| - 1];
      var b := t[|t| - 1];
      assert s + t == (s + t') + [b];
      assert NL !in t';
      PiecesAppendLineFree(s, t');
      PiecesSnoc(s + t', b);
      assert LastPiece(s) + t' + [b] == LastPiece(s) + t;
    }
  }

  /** A newline-free text is a single piece. */
  lemma PiecesOfLineFree(t: seq<byte>)
    requires NL !in t
    ensures Pieces(t) == [t]
  {
    PiecesAppendLineFree([], t);
    assert [] + t == t;
    PiecesParts(t);
  }

  /** Each piece reads back: cutting joined newline-free pieces gives the same pieces. */
  lemma {:induction false} PiecesJoin(ps: seq<seq<byte>>)
    requires |ps| >= 1
    requires forall i :: 0 <= i < |ps| ==> NL !in ps[i]
    ensures Pieces(Join(ps)) == ps
  {
    if |ps| == 1 {
      PiecesOfLineFree(ps[0]);
    } else {
      var init := ps[..|ps| - 1];
      assert init + [ps[|ps| - 1]] == ps;
      PiecesJoin(init);
      PiecesJoinStep(init, ps[|ps| - 1]);
    }
  }

  /** The step of PiecesJoin: one more newline and newline-free piece. */
  lemma PiecesJoinStep(init: seq<seq<byte>>, last: seq<byte>)
    requires |init| >= 1 && NL !in last
    requires Pieces(Join(init)) == init
    ensures Pieces(Join(init + [last])) == init + [last]
  {
    var ps := init + [last];
    assert ps[..|ps| - 1] == init;
    var j := Join(init) + [NL];
    assert Join(ps) == j + last;
    assert [] + last == last;
    PiecesSnoc(Join(init), NL);
    PiecesAppendLineFree(j, last);
    PiecesParts(j + last);
  }

  /** Cutting a concatenation: the first part's complete lines, then the cut of its last piece followed by the rest. */
  lemma {:induction false} PiecesAppend(p: seq<byte>, c: seq<byte>)
    ensures Pieces(p + c) == CompleteLines(p) + Pieces(LastPiece(p) + c)
    decreases |c|
  {
    if c == [] {
      var L := LastPiece(p);
      assert p + c == p;
      assert L + c == L;
      LastPieceLineFree(p);
      PiecesOfLineFree(L);
      PiecesParts(p);
    } else {
      var c' := c[..|c| - 1];
      var b := c[|c| - 1];
      assert c == c' + [b];
      AppendAssociative(p, c', [b]);
      AppendAssociative(LastPiece(p), c', [b]);
      PiecesAppend(p, c');
      PiecesAppendStep(p + c', LastPiece(p) + c', CompleteLines(p), b);
    }
  }

  /** Extending the last element of a concatenation extends the last element of its second part. */
  lemma ExtendLastOfConcat(head: seq<seq<byte>>, tail: seq<seq<byte>>, b: byte)
    requires |tail| >= 1
    ensures var w := head + tail;
      w[..|w| - 1] + [w[|w| - 1] + [b]] == head + (tail[..|tail| - 1] + [tail[|tail| - 1] + [b]])
  {
    var w := head + tail;
    assert w[..|w| - 1] == head + tail[..|tail| - 1];
  }

  /** The step of PiecesAppend: texts whose cuts share a tail keep sharing it after one more byte. */
  lemma PiecesAppendStep(x: seq<byte>, y: seq<byte>, head: seq<seq<byte>>, b: byte)
    requires Pieces(x) == head + Pieces(y)
    ensures Pieces(x + [b]) == head + Pieces(y + [b])
  {
    var tail := Pieces(y);
    if b == NL {
      assert (head + tail) + [[]] == head + (tail + [[]]);
      PiecesNewline(x);
      PiecesNewline(y);
    } else {
      ExtendLastOfConcat(head, tail, b);
      PiecesExtend(x, b);
      PiecesExtend(y, b);
    }
  }

  /** Complete lines and the last piece of a concatenation. */
  lemma CompleteLinesAppend(p: seq<byte>, c: seq<byte>)
    ensures CompleteLines(p + c) == CompleteLines(p) + CompleteLines(LastPiece(p) + c)
    ensures LastPiece(p + c) == LastPiece(LastPiece(p) + c)
  {
    PiecesAppend(p, c);
    var head := CompleteLines(p);
    var tail := Pieces(LastPiece(p) + c);
    assert (head + tail)[..|head + tail| - 1] == head + tail[..|tail| - 1];
  }

  /** Newline-free text in front of `c` joins the first piece of `c`. */
  lemma {:induction false} PiecesPrepend(L: seq<byte>, c: seq<byte>)
    requires NL !in L
    ensures Pieces(L + c) == Pieces(c)[0 := L + Pieces(c)[0]]
    decreases |c|
  {
    if c == [] {
      assert L + c == L;
      PiecesOfLineFree(L);
    } else {
      var c' := c[..|c| - 1];
      PiecesPrepend(L, c');
      PiecesPrependStep(L, c', c[|c| - 1]);
      assert c' + [c[|c| - 1]] == c;
    }
  }

  /** Prefixing the first element commutes with adding an empty element at the end. */
  lemma PrefixFirstThenNewline(P: seq<seq<byte>>, L: seq<byte>)
    requires |P| >= 1
    ensures P[0 := L + P[0]] + [[]] == (P + [[]])[0 := L + (P + [[]])[0]]
  {
  }

  /** Prefixing the first element commutes with extending the last one. */
  lemma PrefixFirstThenExtend(P: seq<seq<byte>>, L: seq<byte>, b: byte)
    requires |P| >= 1
    ensures var Q := P[0 := L + P[0]];
      var Y := P[..|P| - 1] + [P[|P| - 1] + [b]];
      Q[..|Q| - 1] + [Q[|Q| - 1] + [b]] == Y[0 := L + Y[0]]
  {
    var Q := P[0 := L + P[0]];
    var n := |P|;
    var Y := P[..n - 1] + [P[n - 1] + [b]];
    if n == 1 {
      assert L + (P[0] + [b]) == (L + P[0]) + [b];
    } else {
      assert Q[..n - 1] == P[..n - 1][0 := L + P[0]];
    }
  }

  /** The step of PiecesPrepend: one more byte at the end. */
  lemma PiecesPrependStep(L: seq<byte>, c: seq<byte>, b: byte)
    requires Pieces(L + c) == Pieces(c)[0 := L + Pieces(c)[0]]
    ensures Pieces(L + (c + [b])) == Pieces(c + [b])[0 := L + Pieces(c + [b])[0]]
  {
    if b == NL {
      PiecesNewline(c);
      PiecesNewline(L + c);
      PrefixFirstThenNewline(Pieces(c), L);
    } else {
      PiecesExtend(c, b);
      PiecesExtend(L + c, b);
      PrefixFirstThenExtend(Pieces(c), L, b);
    }
    assert L + (c + [b]) == (L + c) + [b];
  }

  /** Appending another byte extends the last piece. */
  lemma PiecesExtend(s: seq<byte>, b: byte)
    requires b != NL
    ensures var ps := Pieces(s); Pieces(s + [b]) == ps[..|ps| - 1] + [ps[|ps| - 1] + [b]]
  {
    assert (s + [b])[..|s|] == s;
  }

  /** Appending a newline ends the last piece and starts an empty one. */
  lemma PiecesNewline(s: seq<byte>)
    ensures Pieces(s + [NL]) == Pieces(s) + [[]]
    ensures CompleteLines(s + [NL]) == Pieces(s) && LastPiece(s + [NL]) == []
  {
    PiecesSnoc(s, NL);
  }

  /** Text that does not end with a newline has a non-empty last piece. */
  lemma LastPieceOfUnterminated(s: seq<byte>)
    requires s != [] && s[|s| - 1] != NL
    ensures LastPiece(s) != []
  {
    assert s == s[..|s| - 1] + [s[|s| - 1]];
    PiecesSnoc(s[..|s| - 1], s[|s| - 1]);
  }

  /** Every piece a newline ends is non-empty: there are no blank lines. */
  predicate NoEmptyLines(s: seq<byte>) {
    forall i :: 0 <= i < |CompleteLines(s)| ==> CompleteLines(s)[i] != []
  }

  /** Blank-line freedom of a text carries over to its prefix and to the tail that continues its last piece. */
  lemma NoEmptyLinesSplit(p: seq<byte>, c: seq<byte>)
    requires NoEmptyLines(p + c)
    ensures NoEmptyLines(p) && NoEmptyLines(LastPiece(p) + c)
  {
    CompleteLinesAppend(p, c);
    var head, tail := CompleteLines(p), CompleteLines(LastPiece(p) + c);
    forall i | 0 <= i < |head|
      ensures head[i] != []
    {
      assert head[i] == (head + tail)[i];
    }
    forall i | 0 <= i < |tail|
      ensures tail[i] != []
    {
      assert tail[i] == (head + tail)[|head| + i];
    }
  }

  /** Drops the empty strings at the end of a piece list. */
  function DropTrailingEmpty(ps: seq<seq<byte>>): (r: seq<seq<byte>>)
    ensures |r| <= |ps| && r == ps[..|r|]
    ensures forall i :: |r| <= i < |ps| ==> ps[i] == []
    ensures r != [] ==> r[|r| - 1] != []
  {
    if ps == [] then []
    else if ps[|ps| - 1] == [] then DropTrailingEmpty(ps[..|ps| - 1])
    else ps
  }

  /**
   * `String.split("\n")`: the whole text when there is no newline, otherwise
   * the pieces with every trailing empty string removed (so the result can be
   * empty).
   */
  function JavaSplit(s: seq<byte>): (r: seq<seq<byte>>)
    ensures |r| <= |Pieces(s)| && r == Pieces(s)[..|r|]
    ensures forall i :: |r| <= i < |Pieces(s)| ==> Pieces(s)[i] == []
    ensures NL !in s ==> |r| == 1
    ensures NL in s && r != [] ==> r[|r| - 1] != []
  {
    if NL !in s then PiecesOfLineFree(s); [s] else DropTrailingEmpty(Pieces(s))
  }

  /** A chunk that does not end with a newline splits into all of its pieces. */
  lemma SplitUnterminated(c: seq<byte>)
    requires c != [] && c[|c| - 1] != NL
    ensures JavaSplit(c) == Pieces(c)
  {
    if NL !in c {
      PiecesOfLineFree(c);
    } else {
      LastPieceOfUnterminated(c);
    }
  }

  /** A chunk ending with one newline after a non-empty piece splits into its complete lines. */
  lemma SplitTerminated(c: seq<byte>)
    requires |c| >= 2 && c[|c| - 1] == NL && c[|c| - 2] != NL
    ensures JavaSplit(c) == CompleteLines(c)
  {
    var c' := c[..|c| - 1];
    assert c == c' + [NL];
    PiecesNewline(c');
    LastPieceOfUnterminated(c');
    assert NL in c by {
      assert c[|c| - 1] == NL;
    }
    var ps := Pieces(c);
    assert ps[..|ps| - 1] == Pieces(c');
  }

  /** A chunk that is a lone newline splits into nothing at all. */
  lemma SplitLoneNewline()
    ensures JavaSplit([NL]) == []
  {
    PiecesNewline([]);
    assert [] + [NL] == [NL];
  }

  /**
   * A blank line at the end of a text is dropped by `split("\n")`, while the
   * whole-file lines keep it: "5\n\n" splits into one line but has two.
   */
  lemma TrailingBlankLineDropped()
    ensures JavaSplit([Zero + 5, NL, NL]) == [[Zero + 5]]
    ensures Lines([Zero + 5, NL, NL]) == [[Zero + 5], []]
  {
    var five: seq<byte> := [Zero + 5];
    assert Pieces([] + five) == [five] by {
      PiecesExtend([], Zero + 5);
    }
    assert [] + five == five;
    PiecesNewline(five);
    assert five + [NL] == [Zero + 5, NL];
    PiecesNewline([Zero + 5, NL]);
    assert [Zero + 5, NL] + [NL] == [Zero + 5, NL, NL];
    assert NL in [Zero + 5, NL, NL];
    var ps: seq<seq<byte>> := [five, [], []];
    assert ps[..2][..1] == [five];
    assert DropTrailingEmpty(ps) == DropTrailingEmpty(ps[..2]) == DropTrailingEmpty([five]) == [five];
  }

  /**
   * The lines a whole-file reader would parse: every complete line, then the
   * last piece when the file does not end with a newline.
   */
  function Lines(s: seq<byte>): seq<seq<byte>> {
    CompleteLines(s) + if LastPiece(s) == [] then [] else [LastPiece(s)]
  }

  /** A newline right after a newline, or at the very start, ends an empty line. */
  lemma BlankLineBeforeNewline(s: seq<byte>)
    requires s != [] && s[|s| - 1] == NL
    ensures var s' := s[..|s| - 1];
      (s' == [] || s'[|s'| - 1] == NL) ==> CompleteLines(s)[|CompleteLines(s)| - 1] == []
  {
    var s' := s[..|s| - 1];
    assert s == s' + [NL];
    PiecesNewline(s');
    if s' != [] && s'[|s'| - 1] == NL {
      assert s' == s'[..|s'| - 1] + [NL];
      PiecesNewline(s'[..|s'| - 1]);
    }
  }

  /** On a non-empty text without blank lines, the lines are exactly what `split("\n")` returns for the whole text. */
  lemma LinesAreJavaSplit(s: seq<byte>)
    requires s != [] && NoEmptyLines(s)
    ensures Lines(s) == JavaSplit(s)
  {
    if s[|s| - 1] != NL {
      SplitUnterminated(s);
      LastPieceOfUnterminated(s);
      PiecesParts(s);
    } else {
      var s' := s[..|s| - 1];
      assert s == s' + [NL];
      PiecesNewline(s');
      BlankLineBeforeNewline(s);
      SplitTerminated(s);
    }
  }

  /** The lines of a generated file: one formatted value each. */
  function Formatted(vs: seq<int>): seq<seq<byte>> {
    if vs == [] then [] else Formatted(vs[..|vs| - 1]) + [FormatLong(vs[|vs| - 1])]
  }

  /** A generated file cuts into its formatted values followed by one empty piece. */
  lemma {:induction false} RenderedPieces(vs: seq<int>)
    ensures CompleteLines(Render(vs)) == Formatted(vs) && LastPiece(Render(vs)) == []
  {
    if vs != [] {
      var init := vs[..|vs| - 1];
      var v := vs[|vs| - 1];
      RenderedPieces(init);
      var r := Render(init);
      PiecesAppendLineFree(r, FormatLong(v));
      assert [] + FormatLong(v) == FormatLong(v);
      assert Render(vs) == (r + FormatLong(v)) + [NL];
      PiecesNewline(r + FormatLong(v));
      PiecesParts(r + FormatLong(v));
    }
  }

  /** The i-th formatted line is the i-th value written with `Long.toString`. */
  lemma {:induction false} FormattedElements(vs: seq<int>)
    ensures |Formatted(vs)| == |vs|
    ensures forall i :: 0 <= i < |vs| ==> Formatted(vs)[i] == FormatLong(vs[i])
  {
    if vs != [] {
      var init := vs[..|vs| - 1];
      FormattedElements(init);
      assert Formatted(vs) == Formatted(init) + [FormatLong(vs[|vs| - 1])];
    }
  }

  /** A generated file has no blank line. */
  lemma RenderedNoEmptyLines(vs: seq<int>)
    ensures NoEmptyLines(Render(vs))
  {
    RenderedPieces(vs);
    FormattedElements(vs);
  }
}
