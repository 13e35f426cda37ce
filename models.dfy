/** Data types shared by the alignment engine: directions, table cells and the
    substitution-scoring table. */
module Models {

  /** The conventional "value or nothing" wrapper; `None` plays the part of a
      nil cell pointer in the dynamic-programming table. */
  datatype Option<+T> = None | Some(value: T)

  /** Which predecessor produced a cell's best score, in the order of the
      source's enumeration. The source's default of `Top` for a cell whose
      direction is never assigned is modelled by `DirectionOf`. */
  datatype Direction = Top | Left | Diagonal | Null

  /** One entry of the dynamic-programming table. */
  datatype Cell = Cell(distance: int, dir: Direction)

  /** The substitution scores, keyed first by the symbol of the first (row)
      sequence and then by the symbol of the second (column) sequence. */
  type ScoringFunc = map<char, map<char, int>>

  /** The table has an entry for the ordered pair (x, y). */
  predicate Defined(sf: ScoringFunc, x: char, y: char)
  {
    x in sf && y in sf[x]
  }

  /** The score for aligning x against y, for a pair the table defines. */
  function Lookup(sf: ScoringFunc, x: char, y: char): int
    requires Defined(sf, x, y)
  {
    sf[x][y]
  }

  /** Every pair (symbol of `first`, symbol of `second`) that the recurrence
      can query has a score. */
  predicate Covers(sf: ScoringFunc, first: seq<char>, second: seq<char>)
  {
    forall a, b {:trigger Defined(sf, first[a], second[b])} ::
      0 <= a < |first| && 0 <= b < |second| ==> Defined(sf, first[a], second[b])
  }
}
