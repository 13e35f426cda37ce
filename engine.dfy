/** The Needleman-Wunsch global aligner with a linear gap penalty: the
    tie-breaking maximum, the recurrence the table must satisfy, and the
    table-filling engine with its traceback. */
module Engine {
  import opened Models

  /** The marker written into an aligned string opposite a real symbol. */
  const GapSymbol: char := '-'

  /** The largest of three scores together with the position (1, 2 or 3) of
      the argument that supplied it; an earlier argument wins every tie. */
  function Max3(a: int, b: int, c: int): (r: (int, int))
    ensures r.0 >= a && r.0 >= b && r.0 >= c
    ensures r.1 == 1 || r.1 == 2 || r.1 == 3
    ensures r.1 == 1 ==> r.0 == a
    ensures r.1 == 2 ==> r.0 == b
    ensures r.1 == 3 ==> r.0 == c
    ensures r.1 == 1 <==> a >= b && a >= c
    ensures r.1 == 2 <==> a < b && b >= c
  {
    if a >= b then
      if a >= c then (a, 1) else (c, 3)
    else if b >= c then (b, 2)
    else (c, 3)
  }

  /** The larger of two scores, and whether the first one supplied it; the
      first wins a tie. */
  function Max2(a: int, b: int): (r: (int, bool))
    ensures r.0 >= a && r.0 >= b
    ensures r.1 <==> a >= b
    ensures r.0 == if r.1 then a else b
  {
    if a >= b then (a, true) else (b, false)
  }

  /** The direction recorded for the winning position of `Max3`. Position 3
      records `Top`; so does a position outside 1..3, for which the source
      leaves its field at the default, `Top`. */
  function DirectionOf(k: int): (d: Direction)
    ensures d == Diagonal <==> k == 1
    ensures d == Left <==> k == 2
    ensures d != Null
  {
    if k == 1 then Diagonal
    else if k == 2 then Left
    else Top
  }

  /** The immutable inputs of one alignment: the row ("left") sequence, the
      column ("top") sequence, the scoring table and the gap penalty. */
  datatype Problem = Problem(left: seq<char>, top: seq<char>, sf: ScoringFunc, gap: int)
  {
    /** Every symbol pair the recurrence may look up has a score. */
    predicate Scorable()
    {
      Covers(sf, left, top)
    }

    /** The substitution score of row symbol i against column symbol j. */
    function Score(i: nat, j: nat): int
      requires Scorable() && i < |left| && j < |top|
    {
      Lookup(sf, left[i], top[j])
    }
  }

  /** The cell that the recurrence assigns to prefix lengths (i, j): the
      boundary seeds on row 0 and column 0, and elsewhere the tie-broken
      maximum of the diagonal, left and top candidates. */
  function CellAt(p: Problem, i: nat, j: nat): (c: Cell)
    requires p.Scorable() && i <= |p.left| && j <= |p.top|
    decreases i + j
  {
    if i == 0 && j == 0 then Cell(0, Null)
    else if i == 0 then Cell(p.gap * j, Left)
    else if j == 0 then Cell(p.gap * i, Top)
    else
      var m := Max3(CellAt(p, i - 1, j - 1).distance + p.Score(i - 1, j - 1),
                    CellAt(p, i, j - 1).distance + p.gap,
                    CellAt(p, i - 1, j).distance + p.gap);
      Cell(m.0, DirectionOf(m.1))
  }

  /** Only the origin has no predecessor, and every recorded direction
      points to a cell inside the table. */
  lemma CellAtShape(p: Problem, i: nat, j: nat)
    requires p.Scorable() && i <= |p.left| && j <= |p.top|
    ensures CellAt(p, i, j).dir == Null <==> i == 0 && j == 0
    ensures CellAt(p, i, j).dir == Diagonal ==> i > 0 && j > 0
    ensures CellAt(p, i, j).dir == Top ==> i > 0
    ensures CellAt(p, i, j).dir == Left ==> j > 0
  {
  }

  /** The pair of aligned strings read off the recorded directions, walking
      from (i, j) back to the origin. */
  function Traceback(p: Problem, i: nat, j: nat): (r: (seq<char>, seq<char>))
    requires p.Scorable() && i <= |p.left| && j <= |p.top|
    decreases i + j
  {
    CellAtShape(p, i, j);
    match CellAt(p, i, j).dir
    case Null => ([], [])
    case Diagonal =>
      var t := Traceback(p, i - 1, j - 1);
      (t.0 + [p.left[i - 1]], t.1 + [p.top[j - 1]])
    case Top =>
      var t := Traceback(p, i - 1, j);
      (t.0 + [p.left[i - 1]], t.1 + [GapSymbol])
    case Left =>
      var t := Traceback(p, i, j - 1);
      (t.0 + [GapSymbol], t.1 + [p.top[j - 1]])
  }

  /** What the traceback loop returns when it reaches cell (i, j) holding the
      partial results `f` and `s`: it keeps prepending one column per
      recorded direction until it reaches the origin. */
  function TracebackFrom(p: Problem, i: nat, j: nat, f: seq<char>, s: seq<char>): (r: (seq<char>, seq<char>))
    requires p.Scorable() && i <= |p.left| && j <= |p.top|
    decreases i + j
  {
    CellAtShape(p, i, j);
    match CellAt(p, i, j).dir
    case Null => (f, s)
    case Diagonal => TracebackFrom(p, i - 1, j - 1, [p.left[i - 1]] + f, [p.top[j - 1]] + s)
    case Top => TracebackFrom(p, i - 1, j, [p.left[i - 1]] + f, [GapSymbol] + s)
    case Left => TracebackFrom(p, i, j - 1, [GapSymbol] + f, [p.top[j - 1]] + s)
  }

  /** One step of the prepending loop from a cell other than the origin: the
      recorded direction says which neighbour the loop moves to and which
      column it prepends. */
  lemma TracebackFromStep(p: Problem, i: nat, j: nat, f: seq<char>, s: seq<char>)
    requires p.Scorable() && i <= |p.left| && j <= |p.top| && CellAt(p, i, j).dir != Null
    ensures CellAt(p, i, j).dir == Diagonal ==>
              i > 0 && j > 0 &&
              TracebackFrom(p, i, j, f, s) == TracebackFrom(p, i - 1, j - 1, [p.left[i - 1]] + f, [p.top[j - 1]] + s)
    ensures CellAt(p, i, j).dir == Top ==>
              i > 0 &&
              TracebackFrom(p, i, j, f, s) == TracebackFrom(p, i - 1, j, [p.left[i - 1]] + f, [GapSymbol] + s)
    ensures CellAt(p, i, j).dir == Left ==>
              j > 0 &&
              TracebackFrom(p, i, j, f, s) == TracebackFrom(p, i, j - 1, [GapSymbol] + f, [p.top[j - 1]] + s)
  {
    CellAtShape(p, i, j);
  }

  /** The prepending loop builds the traceback's strings in front of whatever
      it started with. */
  lemma {:induction false} TracebackFromIsTraceback(p: Problem, i: nat, j: nat, f: seq<char>, s: seq<char>)
    requires p.Scorable() && i <= |p.left| && j <= |p.top|
    ensures TracebackFrom(p, i, j, f, s) == (Traceback(p, i, j).0 + f, Traceback(p, i, j).1 + s)
    decreases i + j
  {
    CellAtShape(p, i, j);
    match CellAt(p, i, j).dir
    case Null =>
      assert [] + f == f && [] + s == s;
    case Diagonal =>
      var t := Traceback(p, i - 1, j - 1);
      TracebackFromIsTraceback(p, i - 1, j - 1, [p.left[i - 1]] + f, [p.top[j - 1]] + s);
      assert t.0 + ([p.left[i - 1]] + f) == (t.0 + [p.left[i - 1]]) + f;
      assert t.1 + ([p.top[j - 1]] + s) == (t.1 + [p.top[j - 1]]) + s;
    case Top =>
      var t := Traceback(p, i - 1, j);
      TracebackFromIsTraceback(p, i - 1, j, [p.left[i - 1]] + f, [GapSymbol] + s);
      assert t.0 + ([p.left[i - 1]] + f) == (t.0 + [p.left[i - 1]]) + f;
      assert t.1 + ([GapSymbol] + s) == (t.1 + [GapSymbol]) + s;
    case Left =>
      var t := Traceback(p, i, j - 1);
      TracebackFromIsTraceback(p, i, j - 1, [GapSymbol] + f, [p.top[j - 1]] + s);
      assert t.0 + ([GapSymbol] + f) == (t.0 + [GapSymbol]) + f;
      assert t.1 + ([p.top[j - 1]] + s) == (t.1 + [p.top[j - 1]]) + s;
  }

  /** Every step of the traceback adds one character to each string, so the
      two strings have equal length whatever the inputs hold. */
  lemma {:induction false} TracebackEqualLength(p: Problem, i: nat, j: nat)
    requires p.Scorable() && i <= |p.left| && j <= |p.top|
    ensures |Traceback(p, i, j).0| == |Traceback(p, i, j).1|
    decreases i + j
  {
    CellAtShape(p, i, j);
    match CellAt(p, i, j).dir
    case Null =>
    case Diagonal => TracebackEqualLength(p, i - 1, j - 1);
    case Top => TracebackEqualLength(p, i - 1, j);
    case Left => TracebackEqualLength(p, i, j - 1);
  }

  /** The aligner. Rows of the table follow the first sequence, columns the
      second; an unset cell is `None`. */
  class NeedlemanWunsch {
    const top: seq<char>
    const left: seq<char>
    const table: array2<Option<Cell>>
    const sf: ScoringFunc
    const gapValue: int

    /** The inputs this aligner was built from. */
    function Input(): Problem
    {
      Problem(left, top, sf, gapValue)
    }

    /** Cell (a, b), when set, holds the recurrence's value, and its top and
        left neighbours are set. */
    ghost predicate Consistent(a: nat, b: nat)
      requires Input().Scorable() && a < table.Length0 && b < table.Length1
      requires table.Length0 == |left| + 1 && table.Length1 == |top| + 1
      reads table
    {
      table[a, b].Some? ==>
        table[a, b].value == CellAt(Input(), a, b) &&
        (a > 0 ==> table[a - 1, b].Some?) &&
        (b > 0 ==> table[a, b - 1].Some?)
    }

    /** The table invariant: the dimensions fit the sequences, row 0 and
        column 0 are set, and every cell is consistent. */
    ghost predicate Valid()
      reads table
    {
      Input().Scorable() &&
      table.Length0 == |left| + 1 && table.Length1 == |top| + 1 &&
      (forall b :: 0 <= b < table.Length1 ==> table[0, b].Some?) &&
      (forall a :: 0 <= a < table.Length0 ==> table[a, 0].Some?) &&
      (forall a, b :: 0 <= a < table.Length0 && 0 <= b < table.Length1 ==> Consistent(a, b))
    }

    /** Allocates the (|first|+1) x (|second|+1) table and seeds the origin,
        row 0 and column 0; every interior cell is left unset. */
    constructor (first: seq<char>, second: seq<char>, sf: ScoringFunc, gapValue: int)
      requires Covers(sf, first, second)
      ensures left == first && top == second && this.sf == sf && this.gapValue == gapValue
      ensures fresh(table) && Valid()
      ensures table.Length0 == |first| + 1 && table.Length1 == |second| + 1
      ensures table[0, 0] == Some(Cell(0, Null))
      ensures forall j :: 1 <= j <= |second| ==> table[0, j] == Some(Cell(gapValue * j, Left))
      ensures forall i :: 1 <= i <= |first| ==> table[i, 0] == Some(Cell(gapValue * i, Top))
      ensures forall i, j :: 1 <= i <= |first| && 1 <= j <= |second| ==> table[i, j] == None
    {
      var t := new Option<Cell>[|first| + 1, |second| + 1]((_, _) => None);
      t[0, 0] := Some(Cell(0, Null));
      for i := 0 to |second|
        invariant t[0, 0] == Some(Cell(0, Null))
        invariant forall j :: 1 <= j <= i ==> t[0, j] == Some(Cell(gapValue * j, Left))
        invariant forall a, b :: 0 <= a <= |first| && 0 <= b <= |second| && (a > 0 || b > i) ==> t[a, b] == None
      {
        t[0, i + 1] := Some(Cell(gapValue * (i + 1), Left));
      }
      for i := 0 to |first|
        invariant t[0, 0] == Some(Cell(0, Null))
        invariant forall j :: 1 <= j <= |second| ==> t[0, j] == Some(Cell(gapValue * j, Left))
        invariant forall a :: 1 <= a <= i ==> t[a, 0] == Some(Cell(gapValue * a, Top))
        invariant forall a, b :: 1 <= a <= |first| && 0 <= b <= |second| && (a > i || b > 0) ==> t[a, b] == None
      {
        t[i + 1, 0] := Some(Cell(gapValue * (i + 1), Top));
      }
      this.top := second;
      this.left := first;
      this.table := t;
      this.sf := sf;
      this.gapValue := gapValue;
    }

    /** Memoised recursive fill of cell (i, j): a set cell is left alone;
        otherwise its missing neighbours are filled first and the cell gets
        the tie-broken maximum of the three candidates. Only cells in the
        rectangle up to (i, j) change, and no set cell changes. */
    method Determine(i: nat, j: nat)
      requires Valid() && i < table.Length0 && j < table.Length1
      modifies table
      ensures Valid()
      ensures table[i, j].Some?
      ensures forall a, b :: 0 <= a < table.Length0 && 0 <= b < table.Length1 && old(table[a, b]).Some? ==>
        table[a, b] == old(table[a, b])
      ensures forall a, b :: 0 <= a < table.Length0 && 0 <= b < table.Length1 && (a > i || b > j) ==>
        table[a, b] == old(table[a, b])
      ensures old(table[i, j]).None? ==>
        i > 0 && j > 0 &&
        table[i - 1, j - 1].Some? && table[i, j - 1].Some? && table[i - 1, j].Some? &&
        var m := Max3(table[i - 1, j - 1].value.distance + Lookup(sf, left[i - 1], top[j - 1]),
                      table[i, j - 1].value.distance + gapValue,
                      table[i - 1, j].value.distance + gapValue);
        table[i, j] == Some(Cell(m.0, DirectionOf(m.1)))
      decreases i + j
    {
      if table[i, j].Some? {
        return;
      }
      var leftCell, topCell, diagCell := table[i, j - 1], table[i - 1, j], table[i - 1, j - 1];
      if leftCell.None? {
        Determine(i, j - 1);
      }
      if diagCell.None? {
        Determine(i - 1, j - 1);
      }
      if topCell.None? {
        Determine(i - 1, j);
      }
      Store(i, j);
    }

    /** Writes into the unset interior cell (i, j), whose neighbours are set,
        the tie-broken maximum of its diagonal, left and top candidates. */
    method Store(i: nat, j: nat)
      requires Valid() && 0 < i < table.Length0 && 0 < j < table.Length1
      requires table[i, j].None? && table[i - 1, j - 1].Some? && table[i, j - 1].Some? && table[i - 1, j].Some?
      modifies table
      ensures Valid()
      ensures forall a, b :: 0 <= a < table.Length0 && 0 <= b < table.Length1 && (a != i || b != j) ==>
        table[a, b] == old(table[a, b])
      ensures
        var m := Max3(table[i - 1, j - 1].value.distance + Lookup(sf, left[i - 1], top[j - 1]),
                      table[i, j - 1].value.distance + gapValue,
                      table[i - 1, j].value.distance + gapValue);
        table[i, j] == Some(Cell(m.0, DirectionOf(m.1)))
    {
      var m := Max3(table[i - 1, j - 1].value.distance + Lookup(sf, left[i - 1], top[j - 1]),
                    table[i, j - 1].value.distance + gapValue,
                    table[i - 1, j].value.distance + gapValue);
      assert Consistent(i - 1, j - 1) && Consistent(i, j - 1) && Consistent(i - 1, j);
      assert CellAt(Input(), i, j) == Cell(m.0, DirectionOf(m.1));
      label Before:
      table[i, j] := Some(Cell(m.0, DirectionOf(m.1)));
      forall a, b | 0 <= a < table.Length0 && 0 <= b < table.Length1
        ensures Consistent(a, b)
      {
        assert old@Before(Consistent(a, b));
      }
    }

    /** A set cell's whole rectangle back to the origin is set. */
    lemma {:induction false} SetBelow(a: nat, b: nat, a': nat, b': nat)
      requires Valid() && a < table.Length0 && b < table.Length1 && table[a, b].Some?
      requires a' <= a && b' <= b
      ensures table[a', b'].Some?
      decreases a - a' + b - b'
    {
      assert Consistent(a, b);
      if a' < a {
        SetBelow(a - 1, b, a', b');
      } else if b' < b {
        SetBelow(a, b - 1, a', b');
      }
    }

    /** Every cell of the table is set to the recurrence's value. */
    ghost predicate Filled()
      reads table
    {
      Input().Scorable() &&
      table.Length0 == |left| + 1 && table.Length1 == |top| + 1 &&
      forall a, b {:trigger table[a, b]} :: 0 <= a < table.Length0 && 0 <= b < table.Length1 ==>
        table[a, b] == Some(CellAt(Input(), a, b))
    }

    /** Fills the table from the final cell, takes the final cell's score, and
        reads the alignment off the recorded directions. */
    method Solve() returns (firstRes: seq<char>, secondRes: seq<char>, score: int)
      requires Valid()
      modifies table
      ensures Valid() && Filled()
      ensures score == CellAt(Input(), |left|, |top|).distance
      ensures (firstRes, secondRes) == Traceback(Input(), |left|, |top|)
      ensures |firstRes| == |secondRes|
    {
      Determine(|left|, |top|);
      forall a, b | 0 <= a < table.Length0 && 0 <= b < table.Length1
        ensures table[a, b] == Some(CellAt(Input(), a, b))
      {
        SetBelow(|left|, |top|, a, b);
        assert Consistent(a, b);
      }
      var cell := table[|left|, |top|].value;
      score := cell.distance;
      firstRes, secondRes := WalkBack();
      TracebackEqualLength(Input(), |left|, |top|);
    }

    /** The traceback loop of `Solve`: starting at the final cell, follow the
        recorded directions to the origin, prepending a symbol or the gap
        marker to each result string at every step. */
    method WalkBack() returns (firstRes: seq<char>, secondRes: seq<char>)
      requires Filled()
      ensures (firstRes, secondRes) == Traceback(Input(), |left|, |top|)
    {
      var cell := table[|left|, |top|].value;
      firstRes, secondRes := [], [];

      ghost var p := Input();
      ghost var whole := Traceback(p, |left|, |top|);
      TracebackFromIsTraceback(p, |left|, |top|, [], []);
      assert whole.0 + [] == whole.0 && whole.1 + [] == whole.1;
      var fp, sp := |left| - 1, |top| - 1;
      ghost var i: nat, j: nat := |left|, |top|;
      while cell.dir != Null
        invariant i <= |left| && j <= |top| && fp == i - 1 && sp == j - 1
        invariant table[i, j] == Some(cell)
        invariant TracebackFrom(p, i, j, firstRes, secondRes) == whole
        decreases i + j
      {
        TracebackFromStep(p, i, j, firstRes, secondRes);
        if cell.dir == Diagonal {
          firstRes := [left[fp]] + firstRes;
          secondRes := [top[sp]] + secondRes;
          sp := sp - 1;
          fp := fp - 1;
          i, j := i - 1, j - 1;
        } else if cell.dir == Top {
          firstRes := [left[fp]] + firstRes;
          secondRes := [GapSymbol] + secondRes;
          fp := fp - 1;
          i := i - 1;
        } else {
          // the remaining direction is Left
          firstRes := [GapSymbol] + firstRes;
          secondRes := [top[sp]] + secondRes;
          sp := sp - 1;
          j := j - 1;
        }
        cell := table[fp + 1, sp + 1].value;
      }
      CellAtShape(p, i, j);
    }
  }
}
