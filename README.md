# Fabric yardage: the greedy shelf packer

This project models `pack_pieces` in Dafny. It is the function inside `calculate_fabric_yardage` that decides how much fabric a set of rectangular pieces needs. It takes the piece widths, the piece heights and the width of the fabric. It returns either "infeasible" or the length of fabric used plus one placement `(x, y, w, h, index)` per piece.

The packer works in three steps:

1. If some piece is wider than the fabric, it gives up. The source returns `nan` and an empty layout; here that is the `Infeasible` answer.
2. It tags each piece with its position in the input. It then sorts the pieces tallest first. The sort is stable, so pieces of equal height keep their input order.
3. It makes one pass over the sorted pieces, filling rows ("shelves") from left to right.
   - A piece that fits in the width the current row leaves goes to the right of the row.
   - Otherwise the row is closed: its height, that of its tallest piece, is added to the length used. The piece then starts a new row at the left edge.
   - At the end the last row is closed.

Two modules, one per concern:

- `shelves.dfy` (module `Shelves`) describes the packing without a loop. `Rows` is the greedy partition of a piece sequence into rows, built one piece at a time by `AddPiece`. `Layout` places those rows, and `Height` is the sum of the row heights. `NextPlacement` says where one more piece goes. The lemmas there prove what the rows and the layout look like: each piece appears once and in order, every row is within the width, rows are stacked without overlap, and the sorted order is unique.
- `yardage.dfy` (module `Yardage`) holds the packer with the source's own shape:
  - `Pack` runs the width check, tags the pieces and calls `SortByHeight`, an insertion sort method.
  - `ShelvePass` runs the pass as a loop. Its variables are those of the source (`totalLength`, `remainingWidth`, `currentRowHeight`, `xCursor`, `layout`), and its invariant `PassState` ties them to the greedy rows of the pieces seen so far.
  - `IsShelfPacking` states what a correct answer is: the sorted pieces, laid out by the greedy rows, with a length equal to the sum of the row heights. The lemmas after it derive, from that definition alone, the guarantees a caller relies on: one placement per piece, inside the fabric and the length, rows stacked without overlap, and a unique answer.

Widths and heights are natural numbers, and the fabric width is an integer. Every dataset the script packs is integral.

The source does not check that the two lists have equal length. `zip` pairs pieces only up to the shorter list, while the width check scans every width, including those past the last height. The model does the same (`Tag`, `HasOversized`).

## Model

| member | source | states |
|---|---|---|
| Yardage.Pack | yardage.py:27-62 | The answer is infeasible exactly when some width, over the whole width list, exceeds the fabric width. Otherwise it is a correct shelf packing (`IsShelfPacking`): the tagged pieces in stable tallest-first order, laid out by the greedy row policy, with a length equal to the sum of the row heights. |
| Yardage.SortByHeight | yardage.py:34-38 | The output is a permutation of the tagged pieces. It is ordered tallest first, and equal heights are ordered by increasing input position, as Python's stable `sorted(..., reverse=True)` orders them. |
| Yardage.InsertionPoint | yardage.py:34-38 | The returned position has every piece before it at least as tall as the new piece, and the piece at it strictly shorter. |
| Yardage.InsertStep | yardage.py:34-38 | Inserting the next input piece at its insertion point keeps the invariant: the sorted prefix holds exactly the first i+1 pieces, in stable tallest-first order. |
| Yardage.InsertSorted | yardage.py:34-38 | Inserting after all pieces at least as tall and before the shorter ones keeps the stable order. No sorted piece has a higher input position than the inserted one. |
| Yardage.InsertAdds | yardage.py:34-38 | Inserting a piece adds exactly that piece to the multiset of pieces. |
| Yardage.PlaceInRow | yardage.py:47-52 | When the piece fits in the remaining width, it is placed at `(x_cursor, total_length)`. The cursor and remaining width move by its width, and the row height becomes the maximum. The pass state (`PassState`: the rows so far are the greedy rows of the pieces seen, the layout is their layout, the length is the height of the closed rows, and the row height, cursor and remaining width describe the open row) then holds for one more piece. |
| Yardage.StartNewRow | yardage.py:53-59 | When the piece does not fit, the open row's height is added to the length and the piece is placed at `(0, total_length)`. The cursor becomes its width and the row height its height. The pass state again describes the greedy rows of one more piece. |
| Yardage.FinishPass | yardage.py:61-62 | After the last piece, the layout built so far is the layout of the greedy rows. The length plus the open row's height is the sum of all row heights. |
| Yardage.ShelvePass | yardage.py:40-62 | The loop returns the layout of the greedy rows of the sorted pieces, and a length equal to the sum of their row heights. Its invariant keeps `remaining_width == fabric_width - x_cursor`, the row height as the maximum height in the open row, and `x_cursor <= fabric_width` once a piece is placed. |
| Yardage.PassIsShelfPacking | yardage.py:34-62 | The layout and the summed row heights of the greedy rows of a stable tallest-first sort of the tagged pieces form an answer that meets `IsShelfPacking`. |
| Yardage.PackingPlacesInputPieces | yardage.py:35-59 | A correct layout has one placement per input piece (the shorter list's length). Each placement carries a valid input position and that piece's width and height. |
| Yardage.PackingPlacesEachPieceOnce | yardage.py:35-59 | The positions named by a correct layout are exactly 0..n-1: every one appears, and none appears twice. |
| Yardage.PackingInBounds | yardage.py:40-61 | In a correct layout, every piece lies within `0 <= x`, `x + w <= fabric_width`, `0 <= y` and `y + h <= total_length`. The `y` values never decrease along the layout. The first piece sits at (0, 0). |
| Yardage.PackingNoOverlap | yardage.py:49-57 | No two pieces of a correct layout share an area of positive size. A piece placed higher up the fabric than a later one (smaller `y`) ends at or above that one's top edge, so rows have disjoint y-intervals. |
| Yardage.PackingOfNothing | yardage.py:40-62 | With no pieces, the answer is length 0 and an empty layout. |
| Yardage.PackingUnique | yardage.py:27-62 | Any two correct answers for the same input are equal. |
| Shelves.ConcatOfAddPiece | yardage.py:46-59 | Placing a piece appends it after all the pieces already placed in rows. |
| Shelves.RowsPartition | yardage.py:46-59 | The rows formed from the first n pieces hold exactly those pieces, in the order taken. |
| Shelves.RowsNonEmpty | yardage.py:53-59 | A row is opened only to hold a piece, so no row is empty. |
| Shelves.RowsFit | yardage.py:47-58 | When no piece is wider than the fabric, the pieces of every row fit within the fabric width. |
| Shelves.AddPieceKeepsGreedy | yardage.py:47-59 | One greedy step keeps the rule that every row after the first was opened by a piece that did not fit beside the row before. |
| Shelves.RowsGreedy | yardage.py:47-59 | A new row is started only when its first piece did not fit in the width the previous row left. |
| Shelves.MaxOfNonIncreasing | yardage.py:52 | The tallest piece of a row sorted tallest first is its first piece. |
| Shelves.AddPieceKeepsTallestFirst | yardage.py:52-59 | One greedy step on tallest-first input keeps every row sorted, with a height equal to its first piece's. |
| Shelves.RowHeightIsFirstPiece | yardage.py:52-59 | With pieces sorted tallest first, the row height kept by the pass, the running maximum, is the height of the row's first piece. |
| Shelves.GrowRow | yardage.py:49-52 | Adding a piece to a row widens it by the piece's width and raises its height to the maximum. The piece goes at the row's previous width. |
| Shelves.StartRow | yardage.py:56-59 | A piece alone in a row sits at x = 0, and the row takes its width and height. |
| Shelves.CloseRow | yardage.py:55-61 | Closing a row places it at the sum of the heights of the rows above it, and adds its height to the total. |
| Shelves.LayoutOfAddPiece | yardage.py:47-59 | One greedy step adds exactly the next piece's placement to the layout of the rows. |
| Shelves.LayoutOfGrownRow | yardage.py:47-52 | A piece added to the last row is placed at that row's previous width, at the row's top. |
| Shelves.RowLayoutShape | yardage.py:49-50 | Within a row, pieces share one `y`, lie within the row's width, and are placed left to right with disjoint x-intervals. |
| Shelves.RowLayoutGapless | yardage.py:49-50 | A row leaves no gaps: each piece starts at the x where the previous one ends, and the last one ends at the row's width, which is the `x_cursor` the pass keeps. |
| Shelves.RowLayoutStartsAtZero | yardage.py:56-57 | The first piece of a row is placed at x = 0, at the row's `y`. |
| Shelves.LayoutPieces | yardage.py:49-56 | The layout lists the pieces of the rows, row after row, each exactly once. |
| Shelves.LayoutWithinLength | yardage.py:55-61 | Every placement has `0 <= y` and `y + h <= total length`, and the `y` values never decrease. |
| Shelves.LayoutInWidth | yardage.py:47-58 | When every row fits the fabric, every placement has `0 <= x` and `x + w <= fabric_width`. |
| Shelves.LayoutNoOverlap | yardage.py:49-57 | No two placements share an area of positive size. |
| Shelves.LayoutRowsStacked | yardage.py:55-57 | Across rows the y-intervals are disjoint: a placement with a smaller `y` than a later one ends at or above the later one's `y`. |
| Shelves.LayoutStartsAtOrigin | yardage.py:40-49 | The first placement is at (0, 0). |
| Shelves.OrderedHeadsAgree | yardage.py:34-38 | Two tallest-first, position-tie-broken orderings of the same pieces start with the same piece. |
| Shelves.OrderedUnique | yardage.py:34-38 | The tallest-first order with ties broken by input position is unique, so the stable sort's output is determined. |

## Left out

- pandas `DataFrame` access and column selection (yardage.py:24, 65, 71). The inputs are two sequences.
- Printing and conversion to yards (`round(length/36, 2)`, yardage.py:66-73). This is console output and float rounding.
- The matplotlib drawing of the layout (yardage.py:75-115). It only reads the layout.
- The two-orientation comparison (yardage.py:64-73). It is two calls of the same packer with width and height swapped.
- The script driver and its datasets (yardage.py:118-169).
- Floating-point dimensions and the `nan` sentinel. Dimensions are `nat` and the fabric width is `int`. The `nan` length with an empty layout is the `Infeasible` answer. Negative dimensions are therefore not modelled.
- The NaN-length check done by the callers (`pd.isna`). Callers test `Infeasible?` instead.
