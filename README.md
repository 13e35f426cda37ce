# Needleman-Wunsch global aligner

This project models the alignment engine of a small Go program that aligns
two sequences (protein or DNA) with the Needleman-Wunsch algorithm. The
algorithm uses a substitution-scoring table and a linear gap penalty. The
engine works on a table with one row per symbol of the first sequence and
one column per symbol of the second, plus row 0 and column 0. It proceeds in
three steps:

- The constructor allocates the table. It seeds the origin with distance 0
  and no direction, row 0 with `gap * j` pointing left, and column 0 with
  `gap * i` pointing up. Every interior cell is left unset.
- `determine(i, j)` is a memoised recursive fill. It first fills any unset
  left, diagonal or top neighbour. It then stores the maximum of three
  candidates:
  - the diagonal distance plus the substitution score;
  - the left distance plus the gap penalty;
  - the top distance plus the gap penalty.

  Along with it, it records which candidate won. The diagonal candidate wins
  every tie, and the left candidate wins a tie against the top one.
- `Solve` fills the table from the final cell and returns that cell's
  distance. It also walks the recorded directions back to the origin. At
  each step it prepends to both result strings either a symbol or the gap
  marker `-`.

The Dafny project has three modules:

- `Models` (`models.dfy`) holds the source's data types.
  - `Direction`: its constructors are in the source's order. In the source,
    position 3 sets `Top`, and a position outside 1-3 leaves the direction
    at the Go zero value of the enumeration, which is also `Top`.
    `DirectionOf`'s final `else Top` covers both.
  - `Cell`.
  - The nested scoring map `ScoringFunc`.
  - `Option`, which plays the part of a nil cell pointer.
- `Engine` (`engine.dfy`) holds the following:
  - `Max3` and `Max2`.
  - A reference definition of the recurrence, `CellAt`. It maps prefix
    lengths (i, j) to the cell the engine stores there.
  - A reference definition of the traceback, `Traceback`.
  - The class `NeedlemanWunsch`. Its fields are the two sequences, the
    scoring map, the gap penalty and an `array2<Option<Cell>>` table. It has
    the constructor, the recursive `Determine`, and `Solve` with its
    traceback loop.

  The class invariant `Valid()` states three things:
  - every set cell holds `CellAt` of its position;
  - row 0 and column 0 are set;
  - the top and left neighbours of a set cell are set.
- `Alignments` (`alignment.dfy`) defines what a global alignment is, and
  what it scores column by column. It then proves what the engine's result
  is:
  - it is an alignment of the inputs;
  - it scores what the final cell says;
  - no alignment scores more;
  - the score does not change when the two sequences are swapped under the
    transposed scoring table;
  - a sequence aligned against itself comes back twice without gaps.

## Model

| member | source | states |
|---|---|---|
| Engine.Max3 | engine.go:132-143 | The value returned is at least each argument, and it equals the argument at the position returned. The position is 1 exactly when a >= b and a >= c. It is 2 exactly when a < b and b >= c, and otherwise it is 3. So the first argument wins every tie, and the second wins a tie against the third. |
| Engine.Max2 | engine.go:145-150 | The value is at least both arguments. The flag is true exactly when a >= b, and the value is a when the flag is set and b otherwise. |
| Engine.DirectionOf | engine.go:116-128 | Position 1 records Diagonal and position 2 records Left. Any other position gives Top. That covers position 3, which sets Top in the source, and any position outside 1-3, for which the source leaves the Go zero value Top. So the result is never Null. |
| Engine.CellAtShape | engine.go:70-85 | Only the origin has direction Null. A Diagonal cell has i > 0 and j > 0, a Top cell has i > 0, and a Left cell has j > 0. So the traceback never steps outside the table, and it stops only at the origin. |
| Engine.TracebackEqualLength | engine.go:70-86 | For any inputs, gap markers among them or not, the traceback from (i, j) gives two strings of equal length. Each step prepends exactly one character to both strings. |
| Engine.TracebackFromIsTraceback | engine.go:66-86 | Starting from partial results f and s, the prepending loop produces the traceback's strings followed by f and s. |
| Engine.NeedlemanWunsch.constructor | engine.go:15-46 | The table has \|first\|+1 rows and \|second\|+1 columns. The origin is (0, Null). Row 0, column j >= 1 is (gap*j, Left). Column 0, row i >= 1 is (gap*i, Top). Every interior cell is unset. The fields keep the inputs, and the table invariant holds. |
| Engine.NeedlemanWunsch.Determine | engine.go:92-129 | Afterwards cell (i, j) is set and the table invariant still holds. A cell that was already set keeps its value, so a call on a set cell changes nothing. Cells beyond (i, j) are not touched. If (i, j) was unset, then it is interior, its three neighbours are set, and it holds the max3 of diag+score, left+gap and top+gap. Its direction is Diagonal for position 1, Left for 2 and Top for 3. |
| Engine.NeedlemanWunsch.Store | engine.go:110-128 | Writes the max3 cell into an unset interior cell whose neighbours are set. No other cell changes, and the table invariant holds. |
| Engine.NeedlemanWunsch.SetBelow | engine.go:96-108 | If a cell is set, every cell in the rectangle from the origin to it is set. |
| Engine.NeedlemanWunsch.Solve | engine.go:59-89 | After the fill, every cell equals the recurrence's value. The score is the distance of cell (n, m). The two strings are the traceback from (n, m), and they have equal length. |
| Engine.NeedlemanWunsch.WalkBack | engine.go:66-88 | The prepending loop over the recorded directions stops at the origin and returns exactly the traceback from (n, m). |
| Alignments.Dominates | engine.go:110-114 | Each cell's distance is at least its diagonal candidate (predecessor plus substitution score), its left candidate and its top candidate. On the boundary, it is at least its one predecessor plus a gap. |
| Alignments.Attains | engine.go:116-128 | The recorded direction names a candidate that attains the distance exactly. Null appears only at the origin, whose distance is 0. |
| Alignments.TracebackIsAlignment | engine.go:70-86 | If the inputs hold no `-`, the traceback from (i, j) aligns the prefixes of length i and j. Its two strings have equal length, and no column holds two gaps. Deleting the gaps gives back each prefix, in order. |
| Alignments.TracebackScore | engine.go:63-86 | If the inputs hold no `-`, the traceback's column-by-column score equals the distance of cell (i, j). A symbol/symbol column scores its substitution score. A column with a gap scores the gap penalty. |
| Alignments.Optimal | engine.go:110-114 | No alignment of the prefixes of length i and j scores more than the distance of cell (i, j). |
| Alignments.OptimalBound | engine.go:59-89 | For any inputs covered by the scoring map, gap markers among them or not, the two result strings have equal length. Every global alignment of the inputs scores at most the returned score. That bound says something only for inputs without `-`: when an input holds a `-`, no pair of strings is an alignment of it. |
| Alignments.OptimalAlignment | engine.go:59-89 | The engine's result for the whole sequences is a global alignment of the two inputs. Its column score is the returned score, and every global alignment scores at most that. |
| Alignments.FirstColumn | engine.go:38-44 | Down column 0, the distance is gap*i. The traceback is the first i row symbols over i gaps. |
| Alignments.FirstRow | engine.go:31-36 | Along row 0, the distance is gap*j. The traceback is j gaps over the first j column symbols. |
| Alignments.EmptySecond | engine.go:38-44 | Against an empty second sequence, the result is the first sequence over an all-gap string, with score \|first\|*gap. |
| Alignments.Symmetric | engine.go:110-114 | If the sequences are swapped and the scoring table is transposed, every distance stays the same. In particular the optimal score does not change (directions may differ under ties). |
| Alignments.SelfBound | engine.go:110-114 | Under a self-scoring scheme, cell (i, j) of a sequence aligned against itself scores at most the self-scores of its first min(i, j) symbols. |
| Alignments.SelfDiagonal | engine.go:110-128 | Along the main diagonal of a self-alignment, each cell's distance is the running sum of self-scores. Its traceback pairs the prefix with itself. |
| Alignments.Identity | engine.go:59-89 | Consider a sequence aligned against itself. Suppose no self-score is negative, no mismatch is positive, and the gap penalty is not positive. Then both result strings are the sequence itself, with no gaps, and the score is the sum of the self-scores. |

## Left out

- `main.go` is not part of this model. It covers flag parsing, file reading, the FASTA parser, the BLOSUM62 table, and the printing and line-wrapping of the output. All of this is input and output around the engine. The model takes the two sequences, the scoring map and the gap penalty as parameters.
- `Print` (engine.go:49-57) writes the table to standard output for debugging. Printing is not modelled.
- `engine_test.go` does not exercise the engine, so nothing in it is modelled.
- The `Sequence` record's `ID` and `Description` are never read by the engine. The model passes only the symbol strings.
- A missing key in the Go scoring map silently reads as 0. The model does not reproduce that. Instead, the constructor and every specification function require that each pair drawn from the two sequences is in the map (`Covers`), so an unscored pair is a precondition failure rather than a zero.
- The Go code indexes strings as bytes, converts each byte to a rune, and keys the scoring map by `uint8`. The model uses `seq<char>` throughout and keys the map by `char`. The constructor's loops over `second.Value` and `first.Value` (engine.go:31, 38) step over the start index of each rune rather than each byte. So a multi-byte symbol leaves some row-0 cells nil, or some rows unallocated, and `determine` then panics. The `seq<char>` model has no such path.
- Go's `int` is a machine integer. The model uses unbounded `int`, so overflow of very long alignments is not modelled.
- `Store` and `WalkBack` are not separate functions in the source. `Store` is the tail of `determine` (engine.go:110-128), and `WalkBack` is the loop of `Solve` (engine.go:66-88). Each is split out only to keep its proof small.
- Alignments.TracebackIsAlignment assumes the inputs contain no gap marker `-`, but only for two of its parts: that deleting the gap markers gives back each prefix, and that no column holds two gaps. Both fail for inputs with a `-`. For example, with left = "-" and top = "", the traceback from (1, 0) is ("-", "-"). That the two strings have equal length holds for all inputs, and it is proved separately (Engine.TracebackEqualLength, Engine.NeedlemanWunsch.Solve, Alignments.OptimalBound).
- Alignments.TracebackScore makes the same assumption: a symbol equal to the gap marker would be scored as a gap.
- Alignments.OptimalAlignment makes the same assumption. Alignments.OptimalBound states the equal length of its strings for all inputs. It also states the optimality bound without the assumption, but that bound is empty for an input holding a `-`. Deleting gap markers never leaves a `-`, so no pair of strings is an alignment of such an input, and nothing is then proved about the score.
- Alignments.Identity asks only that self-scores are not negative. That is weaker than asking for positive self-scores.
- Alignments.Symmetric states only that distances agree. Under ties, the swapped problem may record different directions and return a different alignment of the same score.
- The worked example of aligning "AATCG" against "AACG" (gap penalty -2, match +1, mismatch -1) is not proved.
- Stack depth of the recursive fill is not modelled. Dafny's recursion has no limit, while Go's goroutine stack can grow very large.
