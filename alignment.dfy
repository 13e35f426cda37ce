/** What it means for two gapped strings to be a global alignment of two
    sequences, what such an alignment scores column by column, and the
    properties of the alignment the engine reads off its table: it is an
    alignment of the inputs, it scores what the final cell says, and no
    alignment scores more. */
module Alignments {
  import opened Models
  import opened Engine

  /** The sequence contains no gap marker. */
  predicate NoGaps(s: seq<char>)
  {
    forall k :: 0 <= k < |s| ==> s[k] != GapSymbol
  }

  /** The string of `k` gap markers: it has length `k`, and deleting its
      gap markers leaves nothing. */
  function Gaps(k: nat): (r: seq<char>)
    ensures |r| == k && RemoveGaps(r) == []
  {
    if k == 0 then []
    else
      var r := Gaps(k - 1) + [GapSymbol];
      assert r[..k - 1] == Gaps(k - 1);
      r
  }

  /** What deleting gaps keeps of one symbol. */
  function Kept(c: char): seq<char>
  {
    if c == GapSymbol then [] else [c]
  }

  /** The symbols of `s` in order, with every gap marker deleted. The last
      term is `Kept(s[|s| - 1])`, written out so that proofs about it stay
      cheap. */
  function RemoveGaps(s: seq<char>): (r: seq<char>)
  {
    if s == [] then []
    else RemoveGaps(s[..|s| - 1]) + (if s[|s| - 1] == GapSymbol then [] else [s[|s| - 1]])
  }

  /** `a` over `b` is a global alignment of `x` against `y`: equal lengths,
      no column made of two gap markers, and deleting the gap markers gives
      back each sequence. */
  predicate IsAlignment(x: seq<char>, y: seq<char>, a: seq<char>, b: seq<char>)
  {
    |a| == |b| &&
    (forall k :: 0 <= k < |a| ==> a[k] != GapSymbol || b[k] != GapSymbol) &&
    RemoveGaps(a) == x && RemoveGaps(b) == y
  }

  /** Every symbol/symbol column of the alignment has a score. */
  predicate PairsDefined(sf: ScoringFunc, a: seq<char>, b: seq<char>)
    requires |a| == |b|
  {
    forall k :: 0 <= k < |a| && a[k] != GapSymbol && b[k] != GapSymbol ==> Defined(sf, a[k], b[k])
  }

  /** A column scores the gap penalty when it holds a gap marker and the
      substitution score otherwise. */
  function ColumnScore(p: Problem, x: char, y: char): int
    requires x == GapSymbol || y == GapSymbol || Defined(p.sf, x, y)
  {
    if x == GapSymbol || y == GapSymbol then p.gap else Lookup(p.sf, x, y)
  }

  /** The sum of the column scores of an alignment. */
  function AlignScore(p: Problem, a: seq<char>, b: seq<char>): int
    requires |a| == |b| && PairsDefined(p.sf, a, b)
    decreases |a|
  {
    if a == [] then 0
    else
      assert PairsDefined(p.sf, a[..|a| - 1], b[..|b| - 1]) by {
        forall k | 0 <= k < |a| - 1 && a[k] != GapSymbol && b[k] != GapSymbol
          ensures Defined(p.sf, a[..|a| - 1][k], b[..|b| - 1][k])
        {
        }
      }
      AlignScore(p, a[..|a| - 1], b[..|b| - 1]) + ColumnScore(p, a[|a| - 1], b[|b| - 1])
  }

  /** Deleting gaps commutes with appending one symbol. */
  lemma RemoveGapsSnoc(s: seq<char>, c: char)
    ensures RemoveGaps(s + [c]) == RemoveGaps(s) + Kept(c)
  {
    assert (s + [c])[..|s|] == s;
  }

  /** A prefix of `s` that ends in `x` is one symbol longer than the prefix
      before it. */
  lemma PrefixSnoc(s: seq<char>, i: nat, r: seq<char>, x: char)
    requires i <= |s| && s[..i] == r + [x]
    ensures i > 0 && s[i - 1] == x && s[..i - 1] == r
  {
    assert s[..i][..i - 1] == s[..i - 1];
  }

  /** Appending a column that is not two gap markers to an alignment gives an
      alignment of the extended sequences. */
  lemma AlignmentSnoc(x: seq<char>, y: seq<char>, a: seq<char>, b: seq<char>, c: char, d: char)
    requires IsAlignment(x, y, a, b) && (c != GapSymbol || d != GapSymbol)
    ensures IsAlignment(x + Kept(c), y + Kept(d), a + [c], b + [d])
  {
    RemoveGapsSnoc(a, c);
    RemoveGapsSnoc(b, d);
  }

  /** Dropping the last column of an alignment leaves an alignment of what its
      gapped rows spell. */
  lemma AlignmentUnsnoc(x: seq<char>, y: seq<char>, a: seq<char>, b: seq<char>)
    requires IsAlignment(x, y, a, b) && a != []
    ensures |a| == |b| && a == a[..|a| - 1] + [a[|a| - 1]] && b == b[..|b| - 1] + [b[|b| - 1]]
    ensures a[|a| - 1] != GapSymbol || b[|b| - 1] != GapSymbol
    ensures IsAlignment(RemoveGaps(a[..|a| - 1]), RemoveGaps(b[..|b| - 1]), a[..|a| - 1], b[..|b| - 1])
    ensures x == RemoveGaps(a[..|a| - 1]) + Kept(a[|a| - 1])
    ensures y == RemoveGaps(b[..|b| - 1]) + Kept(b[|b| - 1])
  {
    var k := |a| - 1;
    assert a == a[..k] + [a[k]] && b == b[..k] + [b[k]];
    RemoveGapsSnoc(a[..k], a[k]);
    RemoveGapsSnoc(b[..k], b[k]);
  }

  /** Appending a column adds that column's score. */
  lemma AlignScoreSnoc(p: Problem, a: seq<char>, b: seq<char>, x: char, y: char)
    requires |a| == |b| && PairsDefined(p.sf, a, b)
    requires x == GapSymbol || y == GapSymbol || Defined(p.sf, x, y)
    ensures PairsDefined(p.sf, a + [x], b + [y])
    ensures AlignScore(p, a + [x], b + [y]) == AlignScore(p, a, b) + ColumnScore(p, x, y)
  {
    assert (a + [x])[..|a|] == a && (b + [y])[..|b|] == b;
  }

  /** Adding one gap penalty to k of them gives k + 1. */
  lemma GapStep(gap: int, k: nat)
    requires k > 0
    ensures gap * k == gap * (k - 1) + gap
  {
  }

  /** The distance of a cell is at least each candidate the recurrence
      offers it: diagonal plus the substitution score, left plus a gap, top
      plus a gap (on the boundary, the one predecessor plus a gap). */
  lemma Dominates(p: Problem, i: nat, j: nat)
    requires p.Scorable() && i <= |p.left| && j <= |p.top|
    ensures i > 0 && j > 0 ==> CellAt(p, i, j).distance >= CellAt(p, i - 1, j - 1).distance + p.Score(i - 1, j - 1)
    ensures i > 0 ==> CellAt(p, i, j).distance >= CellAt(p, i - 1, j).distance + p.gap
    ensures j > 0 ==> CellAt(p, i, j).distance >= CellAt(p, i, j - 1).distance + p.gap
  {
    if i > 0 && j == 0 {
      GapStep(p.gap, i);
    } else if i == 0 && j > 0 {
      GapStep(p.gap, j);
    }
  }

  /** The recorded direction names a candidate that attains the distance. */
  lemma Attains(p: Problem, i: nat, j: nat)
    requires p.Scorable() && i <= |p.left| && j <= |p.top|
    ensures CellAt(p, i, j).dir == Diagonal ==>
      i > 0 && j > 0 && CellAt(p, i, j).distance == CellAt(p, i - 1, j - 1).distance + p.Score(i - 1, j - 1)
    ensures CellAt(p, i, j).dir == Top ==>
      i > 0 && CellAt(p, i, j).distance == CellAt(p, i - 1, j).distance + p.gap
    ensures CellAt(p, i, j).dir == Left ==>
      j > 0 && CellAt(p, i, j).distance == CellAt(p, i, j - 1).distance + p.gap
    ensures CellAt(p, i, j).dir == Null ==> i == 0 && j == 0 && CellAt(p, i, j).distance == 0
  {
    if i > 0 && j == 0 {
      GapStep(p.gap, i);
    } else if i == 0 && j > 0 {
      GapStep(p.gap, j);
    }
  }

  /** The traceback from (i, j) aligns the prefixes of length i and j. */
  ghost predicate AlignsPrefixes(p: Problem, i: nat, j: nat)
    requires p.Scorable() && i <= |p.left| && j <= |p.top|
  {
    IsAlignment(p.left[..i], p.top[..j], Traceback(p, i, j).0, Traceback(p, i, j).1)
  }

  /** The traceback from (i, j) is an alignment of the prefixes of length i
      and j, provided the inputs hold no gap marker. */
  lemma {:induction false} TracebackIsAlignment(p: Problem, i: nat, j: nat)
    requires p.Scorable() && NoGaps(p.left) && NoGaps(p.top) && i <= |p.left| && j <= |p.top|
    ensures AlignsPrefixes(p, i, j)
    decreases i + j
  {
    CellAtShape(p, i, j);
    match CellAt(p, i, j).dir
    case Null =>
    case Diagonal =>
      TracebackIsAlignment(p, i - 1, j - 1);
      DiagonalStep(p, i, j);
    case Top =>
      TracebackIsAlignment(p, i - 1, j);
      TopStep(p, i, j);
    case Left =>
      TracebackIsAlignment(p, i, j - 1);
      LeftStep(p, i, j);
  }

  /** A diagonal step of the traceback extends an alignment of the shorter
      prefixes by the column (row symbol, column symbol). */
  lemma DiagonalStep(p: Problem, i: nat, j: nat)
    requires p.Scorable() && NoGaps(p.left) && NoGaps(p.top) && 0 < i <= |p.left| && 0 < j <= |p.top|
    requires CellAt(p, i, j).dir == Diagonal
    requires AlignsPrefixes(p, i - 1, j - 1)
    ensures AlignsPrefixes(p, i, j)
  {
    var t := Traceback(p, i - 1, j - 1);
    assert Traceback(p, i, j) == (t.0 + [p.left[i - 1]], t.1 + [p.top[j - 1]]);
    assert Kept(p.left[i - 1]) == [p.left[i - 1]] && Kept(p.top[j - 1]) == [p.top[j - 1]];
    AlignmentSnoc(p.left[..i - 1], p.top[..j - 1], t.0, t.1, p.left[i - 1], p.top[j - 1]);
    assert p.left[..i] == p.left[..i - 1] + [p.left[i - 1]];
    assert p.top[..j] == p.top[..j - 1] + [p.top[j - 1]];
  }

  /** A step up the table extends an alignment by (row symbol, gap). */
  lemma TopStep(p: Problem, i: nat, j: nat)
    requires p.Scorable() && NoGaps(p.left) && 0 < i <= |p.left| && j <= |p.top|
    requires CellAt(p, i, j).dir == Top
    requires AlignsPrefixes(p, i - 1, j)
    ensures AlignsPrefixes(p, i, j)
  {
    var t := Traceback(p, i - 1, j);
    AlignmentSnoc(p.left[..i - 1], p.top[..j], t.0, t.1, p.left[i - 1], GapSymbol);
    assert p.left[..i] == p.left[..i - 1] + [p.left[i - 1]];
    assert p.top[..j] + [] == p.top[..j];
  }

  /** A step to the left extends an alignment by (gap, column symbol). */
  lemma LeftStep(p: Problem, i: nat, j: nat)
    requires p.Scorable() && NoGaps(p.top) && i <= |p.left| && 0 < j <= |p.top|
    requires CellAt(p, i, j).dir == Left
    requires AlignsPrefixes(p, i, j - 1)
    ensures AlignsPrefixes(p, i, j)
  {
    var t := Traceback(p, i, j - 1);
    AlignmentSnoc(p.left[..i], p.top[..j - 1], t.0, t.1, GapSymbol, p.top[j - 1]);
    assert p.left[..i] + [] == p.left[..i];
    assert p.top[..j] == p.top[..j - 1] + [p.top[j - 1]];
  }

  /** The traceback from (i, j) has rows of equal length, only scorable
      columns, and scores the distance of cell (i, j). */
  ghost predicate ScoresDistance(p: Problem, i: nat, j: nat)
    requires p.Scorable() && i <= |p.left| && j <= |p.top|
  {
    var t := Traceback(p, i, j);
    |t.0| == |t.1| && PairsDefined(p.sf, t.0, t.1) && AlignScore(p, t.0, t.1) == CellAt(p, i, j).distance
  }

  /** The column-by-column score of the traceback from (i, j) is the
      distance stored in cell (i, j). */
  lemma {:induction false} TracebackScore(p: Problem, i: nat, j: nat)
    requires p.Scorable() && NoGaps(p.left) && NoGaps(p.top) && i <= |p.left| && j <= |p.top|
    ensures ScoresDistance(p, i, j)
    decreases i + j
  {
    CellAtShape(p, i, j);
    match CellAt(p, i, j).dir
    case Null =>
    case Diagonal =>
      TracebackScore(p, i - 1, j - 1);
      DiagonalScore(p, i, j);
    case Top =>
      TracebackScore(p, i - 1, j);
      TopScore(p, i, j);
    case Left =>
      TracebackScore(p, i, j - 1);
      LeftScore(p, i, j);
  }

  /** A diagonal step adds the substitution score of its column. */
  lemma DiagonalScore(p: Problem, i: nat, j: nat)
    requires p.Scorable() && NoGaps(p.left) && NoGaps(p.top) && 0 < i <= |p.left| && 0 < j <= |p.top|
    requires CellAt(p, i, j).dir == Diagonal && ScoresDistance(p, i - 1, j - 1)
    ensures ScoresDistance(p, i, j)
  {
    var t := Traceback(p, i - 1, j - 1);
    Attains(p, i, j);
    AlignScoreSnoc(p, t.0, t.1, p.left[i - 1], p.top[j - 1]);
  }

  /** A step up adds one gap penalty. */
  lemma TopScore(p: Problem, i: nat, j: nat)
    requires p.Scorable() && 0 < i <= |p.left| && j <= |p.top|
    requires CellAt(p, i, j).dir == Top && ScoresDistance(p, i - 1, j)
    ensures ScoresDistance(p, i, j)
  {
    var t := Traceback(p, i - 1, j);
    Attains(p, i, j);
    AlignScoreSnoc(p, t.0, t.1, p.left[i - 1], GapSymbol);
  }

  /** A step to the left adds one gap penalty. */
  lemma LeftScore(p: Problem, i: nat, j: nat)
    requires p.Scorable() && i <= |p.left| && 0 < j <= |p.top|
    requires CellAt(p, i, j).dir == Left && ScoresDistance(p, i, j - 1)
    ensures ScoresDistance(p, i, j)
  {
    var t := Traceback(p, i, j - 1);
    Attains(p, i, j);
    AlignScoreSnoc(p, t.0, t.1, GapSymbol, p.top[j - 1]);
  }

  /** No alignment of the prefixes of length i and j scores more than the
      distance of cell (i, j). */
  lemma {:induction false} Optimal(p: Problem, i: nat, j: nat, a: seq<char>, b: seq<char>)
    requires p.Scorable() && i <= |p.left| && j <= |p.top|
    requires IsAlignment(p.left[..i], p.top[..j], a, b)
    ensures PairsDefined(p.sf, a, b)
    ensures AlignScore(p, a, b) <= CellAt(p, i, j).distance
    decreases |a|, 1
  {
    if a == [] {
      assert i == 0 && j == 0;
    } else if a[|a| - 1] != GapSymbol && b[|b| - 1] != GapSymbol {
      OptimalEndsInPair(p, i, j, a, b);
    } else if a[|a| - 1] != GapSymbol {
      OptimalEndsInRowSymbol(p, i, j, a, b);
    } else {
      OptimalEndsInColumnSymbol(p, i, j, a, b);
    }
  }

  /** `Optimal` for an alignment whose last column pairs two symbols: the
      rest aligns the prefixes of length i - 1 and j - 1. */
  lemma {:induction false} OptimalEndsInPair(p: Problem, i: nat, j: nat, a: seq<char>, b: seq<char>)
    requires p.Scorable() && i <= |p.left| && j <= |p.top|
    requires IsAlignment(p.left[..i], p.top[..j], a, b)
    requires a != [] && a[|a| - 1] != GapSymbol && b[|b| - 1] != GapSymbol
    ensures PairsDefined(p.sf, a, b)
    ensures AlignScore(p, a, b) <= CellAt(p, i, j).distance
    decreases |a|, 0
  {
    var k := |a| - 1;
    var a', b', x, y := a[..k], b[..k], a[k], b[k];
    AlignmentUnsnoc(p.left[..i], p.top[..j], a, b);
    PrefixSnoc(p.left, i, RemoveGaps(a'), x);
    PrefixSnoc(p.top, j, RemoveGaps(b'), y);
    Optimal(p, i - 1, j - 1, a', b');
    AlignScoreSnoc(p, a', b', x, y);
    Dominates(p, i, j);
  }

  /** `Optimal` for an alignment whose last column is a row symbol over a
      gap: the rest aligns the prefixes of length i - 1 and j. */
  lemma {:induction false} OptimalEndsInRowSymbol(p: Problem, i: nat, j: nat, a: seq<char>, b: seq<char>)
    requires p.Scorable() && i <= |p.left| && j <= |p.top|
    requires IsAlignment(p.left[..i], p.top[..j], a, b)
    requires a != [] && a[|a| - 1] != GapSymbol && b[|b| - 1] == GapSymbol
    ensures PairsDefined(p.sf, a, b)
    ensures AlignScore(p, a, b) <= CellAt(p, i, j).distance
    decreases |a|, 0
  {
    var k := |a| - 1;
    var a', b', x, y := a[..k], b[..k], a[k], b[k];
    AlignmentUnsnoc(p.left[..i], p.top[..j], a, b);
    PrefixSnoc(p.left, i, RemoveGaps(a'), x);
    assert RemoveGaps(b') == p.top[..j];
    Optimal(p, i - 1, j, a', b');
    AlignScoreSnoc(p, a', b', x, y);
    Dominates(p, i, j);
  }

  /** `Optimal` for an alignment whose last column is a gap over a column
      symbol: the rest aligns the prefixes of length i and j - 1. */
  lemma {:induction false} OptimalEndsInColumnSymbol(p: Problem, i: nat, j: nat, a: seq<char>, b: seq<char>)
    requires p.Scorable() && i <= |p.left| && j <= |p.top|
    requires IsAlignment(p.left[..i], p.top[..j], a, b)
    requires a != [] && a[|a| - 1] == GapSymbol
    ensures PairsDefined(p.sf, a, b)
    ensures AlignScore(p, a, b) <= CellAt(p, i, j).distance
    decreases |a|, 0
  {
    var k := |a| - 1;
    var a', b', x, y := a[..k], b[..k], a[k], b[k];
    AlignmentUnsnoc(p.left[..i], p.top[..j], a, b);
    PrefixSnoc(p.top, j, RemoveGaps(b'), y);
    assert RemoveGaps(a') == p.left[..i];
    Optimal(p, i, j - 1, a', b');
    AlignScoreSnoc(p, a', b', x, y);
    Dominates(p, i, j);
  }

  /** What holds of the aligner's result for any inputs covered by the
      scoring map, gap markers among them or not: its two strings have equal
      length, and no global alignment scores more than the final cell. The
      second part constrains something only when neither input holds a gap
      marker, since otherwise no pair of strings aligns the inputs. */
  lemma OptimalBound(p: Problem)
    requires p.Scorable()
    ensures |Traceback(p, |p.left|, |p.top|).0| == |Traceback(p, |p.left|, |p.top|).1|
    ensures forall a, b :: IsAlignment(p.left, p.top, a, b) ==>
      PairsDefined(p.sf, a, b) && AlignScore(p, a, b) <= CellAt(p, |p.left|, |p.top|).distance
  {
    assert p.left[..|p.left|] == p.left && p.top[..|p.top|] == p.top;
    TracebackEqualLength(p, |p.left|, |p.top|);
    forall a, b | IsAlignment(p.left, p.top, a, b)
      ensures PairsDefined(p.sf, a, b) && AlignScore(p, a, b) <= CellAt(p, |p.left|, |p.top|).distance
    {
      Optimal(p, |p.left|, |p.top|, a, b);
    }
  }

  /** The result of the aligner: the traceback from the final cell is a
      global alignment of the two inputs, its column-by-column score is the
      final cell's distance, and no global alignment scores more. */
  lemma OptimalAlignment(p: Problem)
    requires p.Scorable() && NoGaps(p.left) && NoGaps(p.top)
    ensures IsAlignment(p.left, p.top, Traceback(p, |p.left|, |p.top|).0, Traceback(p, |p.left|, |p.top|).1)
    ensures PairsDefined(p.sf, Traceback(p, |p.left|, |p.top|).0, Traceback(p, |p.left|, |p.top|).1)
    ensures AlignScore(p, Traceback(p, |p.left|, |p.top|).0, Traceback(p, |p.left|, |p.top|).1)
      == CellAt(p, |p.left|, |p.top|).distance
    ensures forall a, b :: IsAlignment(p.left, p.top, a, b) ==>
      PairsDefined(p.sf, a, b) && AlignScore(p, a, b) <= CellAt(p, |p.left|, |p.top|).distance
  {
    assert p.left[..|p.left|] == p.left && p.top[..|p.top|] == p.top;
    TracebackIsAlignment(p, |p.left|, |p.top|);
    TracebackScore(p, |p.left|, |p.top|);
    OptimalBound(p);
  }

  /** Down column 0 the traceback pairs the first i row symbols with gap
      markers, and the distance is i gap penalties. */
  lemma {:induction false} FirstColumn(p: Problem, i: nat)
    requires p.Scorable() && i <= |p.left|
    ensures Traceback(p, i, 0) == (p.left[..i], Gaps(i))
    ensures CellAt(p, i, 0).distance == p.gap * i
  {
    if i > 0 {
      FirstColumn(p, i - 1);
      assert p.left[..i] == p.left[..i - 1] + [p.left[i - 1]];
      assert Gaps(i) == Gaps(i - 1) + [GapSymbol];
    }
  }

  /** Along row 0 the traceback pairs gap markers with the first j column
      symbols, and the distance is j gap penalties. */
  lemma {:induction false} FirstRow(p: Problem, j: nat)
    requires p.Scorable() && j <= |p.top|
    ensures Traceback(p, 0, j) == (Gaps(j), p.top[..j])
    ensures CellAt(p, 0, j).distance == p.gap * j
  {
    if j > 0 {
      FirstRow(p, j - 1);
      assert p.top[..j] == p.top[..j - 1] + [p.top[j - 1]];
      assert Gaps(j) == Gaps(j - 1) + [GapSymbol];
    }
  }

  /** Against an empty second sequence the first comes back unchanged over
      an all-gap string, with score |first| gap penalties. */
  lemma EmptySecond(p: Problem)
    requires p.Scorable() && p.top == []
    ensures Traceback(p, |p.left|, 0) == (p.left, Gaps(|p.left|))
    ensures CellAt(p, |p.left|, 0).distance == |p.left| * p.gap
  {
    FirstColumn(p, |p.left|);
    assert p.left[..|p.left|] == p.left;
  }

  /** `q` is `p` with the two sequences exchanged and a scoring table that
      gives every swapped pair the same score. */
  predicate Transposed(p: Problem, q: Problem)
  {
    q.left == p.top && q.top == p.left && q.gap == p.gap &&
    forall a, b :: 0 <= a < |p.left| && 0 <= b < |p.top| ==>
      Defined(p.sf, p.left[a], p.top[b]) && Defined(q.sf, p.top[b], p.left[a]) &&
      Lookup(q.sf, p.top[b], p.left[a]) == Lookup(p.sf, p.left[a], p.top[b])
  }

  /** The transposed problem is scorable whenever the original is. */
  lemma TransposedScorable(p: Problem, q: Problem)
    requires Transposed(p, q)
    ensures p.Scorable() && q.Scorable()
  {
    forall a, b | 0 <= a < |q.left| && 0 <= b < |q.top|
      ensures Defined(q.sf, q.left[a], q.top[b])
    {
      assert Defined(q.sf, p.top[a], p.left[b]);
    }
  }

  /** Cell (i, j) of `p` and cell (j, i) of `q` hold the same distance. */
  ghost predicate SameDistance(p: Problem, q: Problem, i: nat, j: nat)
    requires p.Scorable() && q.Scorable() && i <= |p.left| && j <= |p.top|
    requires q.left == p.top && q.top == p.left
  {
    CellAt(p, i, j).distance == CellAt(q, j, i).distance
  }

  /** Exchanging the sequences under the transposed scoring table leaves
      every distance unchanged, so the optimal score is symmetric. */
  lemma {:induction false} Symmetric(p: Problem, q: Problem, i: nat, j: nat)
    requires Transposed(p, q) && i <= |p.left| && j <= |p.top|
    ensures p.Scorable() && q.Scorable()
    ensures CellAt(p, i, j).distance == CellAt(q, j, i).distance
  {
    TransposedScorable(p, q);
    SymmetricDistance(p, q, i, j);
  }

  /** The induction behind `Symmetric`. */
  lemma {:induction false} SymmetricDistance(p: Problem, q: Problem, i: nat, j: nat)
    requires Transposed(p, q) && p.Scorable() && q.Scorable() && i <= |p.left| && j <= |p.top|
    ensures SameDistance(p, q, i, j)
    decreases i + j
  {
    if i > 0 && j > 0 {
      SymmetricDistance(p, q, i - 1, j - 1);
      SymmetricDistance(p, q, i, j - 1);
      SymmetricDistance(p, q, i - 1, j);
      SymmetricStep(p, q, i, j);
    }
  }

  /** An interior cell of the transposed table takes the maximum of the same
      three candidates, with the two gap candidates exchanged. */
  lemma SymmetricStep(p: Problem, q: Problem, i: nat, j: nat)
    requires Transposed(p, q) && p.Scorable() && q.Scorable()
    requires 0 < i <= |p.left| && 0 < j <= |p.top|
    requires SameDistance(p, q, i - 1, j - 1) && SameDistance(p, q, i, j - 1) && SameDistance(p, q, i - 1, j)
    ensures SameDistance(p, q, i, j)
  {
    assert q.Score(j - 1, i - 1) == p.Score(i - 1, j - 1);
  }

  /** A scoring scheme for aligning a sequence against itself: both
      sequences are the same, the gap penalty is not positive, a symbol
      scores at least zero against itself and at most zero against any
      other symbol. */
  predicate SelfScoring(p: Problem)
  {
    p.Scorable() && p.left == p.top && p.gap <= 0 &&
    forall a, b :: 0 <= a < |p.left| && 0 <= b < |p.left| ==> SelfScoredPair(p, a, b)
  }

  /** Positions a and b score at least zero if they hold the same symbol and
      at most zero otherwise. */
  predicate SelfScoredPair(p: Problem, a: nat, b: nat)
    requires p.Scorable() && p.left == p.top && a < |p.left| && b < |p.left|
  {
    (p.left[a] == p.left[b] ==> 0 <= p.Score(a, b)) &&
    (p.left[a] != p.left[b] ==> p.Score(a, b) <= 0)
  }

  /** The sum of the self-scores of the first k symbols. */
  function SelfSum(p: Problem, k: nat): int
    requires SelfScoring(p) && k <= |p.left|
  {
    if k == 0 then 0 else SelfSum(p, k - 1) + p.Score(k - 1, k - 1)
  }

  /** The smaller of two lengths. */
  function Min(a: nat, b: nat): nat
  {
    if a <= b then a else b
  }

  /** Under a self-scoring scheme no pair scores more than either symbol
      scores against itself. */
  lemma ScoreBelowSelf(p: Problem, a: nat, b: nat)
    requires SelfScoring(p) && a < |p.left| && b < |p.left|
    ensures p.Score(a, b) <= p.Score(a, a) && p.Score(a, b) <= p.Score(b, b)
  {
    assert SelfScoredPair(p, a, a) && SelfScoredPair(p, b, b) && SelfScoredPair(p, a, b);
    if p.left[a] == p.left[b] {
      assert p.Score(a, b) == p.Score(a, a) == p.Score(b, b);
    }
  }

  /** Self-scores are never negative, so their running sum grows. */
  lemma {:induction false} SelfSumGrows(p: Problem, k: nat, l: nat)
    requires SelfScoring(p) && k <= l <= |p.left|
    ensures SelfSum(p, k) <= SelfSum(p, l)
    decreases l
  {
    if k < l {
      SelfSumGrows(p, k, l - 1);
      assert SelfScoredPair(p, l - 1, l - 1);
    }
  }

  /** A non-positive penalty paid k times is not positive. */
  lemma GapsNonPositive(gap: int, k: nat)
    requires gap <= 0
    ensures gap * k <= 0
  {
  }

  /** Cell (i, j) of a self-alignment scores at most the self-scores of the
      shorter prefix. */
  ghost predicate SelfBounded(p: Problem, i: nat, j: nat)
    requires SelfScoring(p) && i <= |p.left| && j <= |p.left|
  {
    CellAt(p, i, j).distance <= SelfSum(p, Min(i, j))
  }

  /** Against itself, no cell scores more than the self-scores of the
      shorter prefix. */
  lemma {:induction false} SelfBound(p: Problem, i: nat, j: nat)
    requires SelfScoring(p) && i <= |p.left| && j <= |p.left|
    ensures SelfBounded(p, i, j)
    decreases i + j
  {
    if i == 0 || j == 0 {
      SelfBoundEdge(p, i, j);
    } else {
      SelfBound(p, i - 1, j - 1);
      SelfBound(p, i, j - 1);
      SelfBound(p, i - 1, j);
      SelfBoundStep(p, i, j);
    }
  }

  /** `SelfBound` on the edges, where every cell scores gap penalties only. */
  lemma SelfBoundEdge(p: Problem, i: nat, j: nat)
    requires SelfScoring(p) && i <= |p.left| && j <= |p.left| && (i == 0 || j == 0)
    ensures SelfBounded(p, i, j)
  {
    GapsNonPositive(p.gap, i + j);
    assert CellAt(p, i, j).distance == p.gap * (i + j);
  }

  /** The interior step of `SelfBound`. */
  lemma SelfBoundStep(p: Problem, i: nat, j: nat)
    requires SelfScoring(p) && 0 < i <= |p.left| && 0 < j <= |p.left|
    requires SelfBounded(p, i - 1, j - 1) && SelfBounded(p, i, j - 1) && SelfBounded(p, i - 1, j)
    ensures SelfBounded(p, i, j)
  {
    CellAtShape(p, i, j);
    Attains(p, i, j);
    match CellAt(p, i, j).dir
    case Diagonal =>
      ScoreBelowSelf(p, i - 1, j - 1);
      var m := Min(i - 1, j - 1);
      assert Min(i, j) == m + 1 && (m == i - 1 || m == j - 1);
      assert SelfSum(p, m + 1) == SelfSum(p, m) + p.Score(m, m);
    case Top =>
      SelfSumGrows(p, Min(i - 1, j), Min(i, j));
    case Left =>
      SelfSumGrows(p, Min(i, j - 1), Min(i, j));
  }

  /** Along the main diagonal of a self-alignment every cell is reached
      diagonally with the running sum of self-scores, and its traceback
      pairs the prefix with itself. */
  lemma {:induction false} SelfDiagonal(p: Problem, k: nat)
    requires SelfScoring(p) && k <= |p.left|
    ensures CellAt(p, k, k).distance == SelfSum(p, k)
    ensures Traceback(p, k, k) == (p.left[..k], p.left[..k])
  {
    if k > 0 {
      SelfDiagonal(p, k - 1);
      SelfBound(p, k, k - 1);
      SelfBound(p, k - 1, k);
      SelfDiagonalStep(p, k);
      assert p.left[..k] == p.left[..k - 1] + [p.left[k - 1]];
    }
  }

  /** The step of `SelfDiagonal`: the diagonal candidate is at least both
      gap candidates, so it wins the tie-break. */
  lemma SelfDiagonalStep(p: Problem, k: nat)
    requires SelfScoring(p) && 0 < k <= |p.left|
    requires CellAt(p, k - 1, k - 1).distance == SelfSum(p, k - 1)
    requires SelfBounded(p, k, k - 1) && SelfBounded(p, k - 1, k)
    ensures CellAt(p, k, k) == Cell(SelfSum(p, k), Diagonal)
  {
    assert Min(k, k - 1) == k - 1 == Min(k - 1, k);
    assert SelfScoredPair(p, k - 1, k - 1);
    var diagonal := CellAt(p, k - 1, k - 1).distance + p.Score(k - 1, k - 1);
    assert diagonal == SelfSum(p, k);
    assert diagonal >= CellAt(p, k, k - 1).distance + p.gap;
    assert diagonal >= CellAt(p, k - 1, k).distance + p.gap;
  }

  /** Aligning a sequence against itself under a self-scoring scheme gives
      the sequence twice, without gaps, scored by the sum of its
      self-scores. */
  lemma Identity(p: Problem)
    requires SelfScoring(p)
    ensures Traceback(p, |p.left|, |p.top|) == (p.left, p.left)
    ensures CellAt(p, |p.left|, |p.top|).distance == SelfSum(p, |p.left|)
  {
    SelfDiagonal(p, |p.left|);
    assert p.left[..|p.left|] == p.left;
  }
}
