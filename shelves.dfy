/**
 * Greedy shelf (strip) packing, described without a loop.
 *
 * Pieces are taken in a fixed order and grouped into rows ("shelves") across
 * a fabric of fixed width: a piece joins the last row when it fits in the
 * width that row leaves free, and opens a new row otherwise. A row is as tall
 * as its tallest piece, rows are stacked along the fabric's length, and the
 * pieces of a row sit side by side from the left edge.
 *
 * Every function here recurses on the LAST element of its sequence, so that
 * adding one piece unfolds one step, as in a single left-to-right pass.
 */
module Shelves {

  /** A piece to cut: width across the fabric, height along its length,
      and its zero-based position in the caller's input. */
  datatype Piece = Piece(w: nat, h: nat, index: nat)

  /** A piece placed with its top-left corner at (x, y); y grows along the fabric. */
  datatype Placement = Placement(x: int, y: int, w: nat, h: nat, index: nat)

  type Row = seq<Piece>

  function Max(a: nat, b: nat): nat { if a < b then b else a }

  /** Total width taken by the pieces of a row. */
  function RowWidth(row: Row): nat {
    if row == [] then 0 else RowWidth(row[..|row| - 1]) + row[|row| - 1].w
  }

  /** Height of a row: its tallest piece, 0 for an empty row. */
  function MaxH(row: Row): nat {
    if row == [] then 0 else Max(MaxH(row[..|row| - 1]), row[|row| - 1].h)
  }

  /** Length of fabric used by a stack of rows: the sum of the row heights. */
  function Height(rows: seq<Row>): nat {
    if rows == [] then 0 else Height(rows[..|rows| - 1]) + MaxH(rows[|rows| - 1])
  }

  /** The pieces of all rows, row after row. */
  function Concat(rows: seq<Row>): seq<Piece> {
    if rows == [] then [] else Concat(rows[..|rows| - 1]) + rows[|rows| - 1]
  }

  /** One greedy decision: extend the last row when the piece fits beside it, else open a row. */
  function AddPiece(rows: seq<Row>, p: Piece, fabricWidth: int): seq<Row> {
    if rows != [] && RowWidth(rows[|rows| - 1]) + p.w <= fabricWidth then
      rows[|rows| - 1 := rows[|rows| - 1] + [p]]
    else
      rows + [[p]]
  }

  /** The rows the greedy policy forms from the first n pieces, taken in the order given. */
  function Rows(ps: seq<Piece>, n: nat, fabricWidth: int): seq<Row>
    requires n <= |ps|
  {
    if n == 0 then [] else AddPiece(Rows(ps, n - 1, fabricWidth), ps[n - 1], fabricWidth)
  }

  /** The pieces of one row placed side by side from x = 0, all at height y. */
  function RowLayout(row: Row, y: int): seq<Placement> {
    if row == [] then []
    else
      var front, p := row[..|row| - 1], row[|row| - 1];
      RowLayout(front, y) + [Placement(RowWidth(front), y, p.w, p.h, p.index)]
  }

  /** All rows placed, each starting where the rows before it end. */
  function Layout(rows: seq<Row>): seq<Placement> {
    if rows == [] then []
    else
      var front := rows[..|rows| - 1];
      Layout(front) + RowLayout(rows[|rows| - 1], Height(front))
  }

  /** Where the greedy policy puts the next piece, given the rows formed so far: at the
      right end of the last row when it fits there, else at the left edge below all rows. */
  function NextPlacement(rows: seq<Row>, p: Piece, fabricWidth: int): Placement {
    if rows != [] && RowWidth(rows[|rows| - 1]) + p.w <= fabricWidth then
      Placement(RowWidth(rows[|rows| - 1]), Height(rows[..|rows| - 1]), p.w, p.h, p.index)
    else
      Placement(0, Height(rows), p.w, p.h, p.index)
  }

  function PieceOf(q: Placement): Piece { Piece(q.w, q.h, q.index) }

  /** The order in which a layout lists its pieces. */
  function PiecesOf(layout: seq<Placement>): seq<Piece> {
    seq(|layout|, a requires 0 <= a < |layout| => PieceOf(layout[a]))
  }

  /** Two placed rectangles share an area of positive size (half-open intervals on both axes). */
  predicate Overlap(p: Placement, q: Placement) {
    p.x < q.x + q.w && q.x < p.x + p.w && p.y < q.y + q.h && q.y < p.y + p.h
  }

  /** Sort order of the packer: taller first, equal heights by original position. */
  predicate Before(p: Piece, q: Piece) {
    p.h > q.h || (p.h == q.h && p.index < q.index)
  }

  /** Every piece comes Before every later one: the packer's sort order. */
  predicate HeightOrdered(s: seq<Piece>) {
    forall a, b :: 0 <= a < b < |s| ==> Before(s[a], s[b])
  }

  /** Heights never increase along the sequence. */
  predicate NonIncreasing(s: seq<Piece>) {
    forall a, b :: 0 <= a < b < |s| ==> s[a].h >= s[b].h
  }

  // ---------------------------------------------------------------------------
  // The row partition

  /** Adding a piece appends it to the pieces of the rows. */
  lemma ConcatOfAddPiece(rows: seq<Row>, p: Piece, fabricWidth: int)
    ensures Concat(AddPiece(rows, p, fabricWidth)) == Concat(rows) + [p]
  {
  }

  /** A prefix one longer is the shorter prefix followed by the next piece. */
  lemma TakeOneMore(ps: seq<Piece>, n: nat)
    requires 0 < n <= |ps|
    ensures ps[..n - 1] + [ps[n - 1]] == ps[..n]
  {
  }

  /** The rows hold the first n pieces, in order. */
  lemma {:induction false} RowsPartition(ps: seq<Piece>, n: nat, fabricWidth: int)
    requires n <= |ps|
    ensures Concat(Rows(ps, n, fabricWidth)) == ps[..n]
  {
    if n > 0 {
      var prev := Rows(ps, n - 1, fabricWidth);
      RowsPartition(ps, n - 1, fabricWidth);
      ConcatOfAddPiece(prev, ps[n - 1], fabricWidth);
      TakeOneMore(ps, n);
    }
  }

  /** No row is ever empty: a row is opened only to hold a piece. */
  lemma {:induction false} RowsNonEmpty(ps: seq<Piece>, n: nat, fabricWidth: int)
    requires n <= |ps|
    ensures forall r :: 0 <= r < |Rows(ps, n, fabricWidth)| ==> Rows(ps, n, fabricWidth)[r] != []
  {
    if n > 0 {
      RowsNonEmpty(ps, n - 1, fabricWidth);
    }
  }

  /** When no piece is wider than the fabric, no row is either. */
  lemma {:induction false} RowsFit(ps: seq<Piece>, n: nat, fabricWidth: int)
    requires n <= |ps|
    requires forall i :: 0 <= i < |ps| ==> ps[i].w <= fabricWidth
    ensures forall r :: 0 <= r < |Rows(ps, n, fabricWidth)| ==> RowWidth(Rows(ps, n, fabricWidth)[r]) <= fabricWidth
  {
    if n > 0 {
      RowsFit(ps, n - 1, fabricWidth);
      var rows, p := Rows(ps, n - 1, fabricWidth), ps[n - 1];
      if rows != [] && RowWidth(rows[|rows| - 1]) + p.w <= fabricWidth {
        GrowRow(rows[|rows| - 1], p, 0);
      } else {
        StartRow(p, 0);
      }
    }
  }

  /** Every row after the first opened because its first piece did not fit beside the row before. */
  predicate Greedy(rows: seq<Row>, fabricWidth: int) {
    forall r :: 0 < r < |rows| ==> rows[r] != [] && RowWidth(rows[r - 1]) + rows[r][0].w > fabricWidth
  }

  /** One greedy step keeps every closed row closed for a reason. */
  lemma AddPieceKeepsGreedy(rows: seq<Row>, p: Piece, fabricWidth: int)
    requires Greedy(rows, fabricWidth)
    requires forall r :: 0 <= r < |rows| ==> rows[r] != []
    ensures Greedy(AddPiece(rows, p, fabricWidth), fabricWidth)
  {
  }

  /** A row is closed only when the first piece of the next row does not fit beside it. */
  lemma {:induction false} RowsGreedy(ps: seq<Piece>, n: nat, fabricWidth: int)
    requires n <= |ps|
    ensures Greedy(Rows(ps, n, fabricWidth), fabricWidth)
  {
    if n > 0 {
      RowsGreedy(ps, n - 1, fabricWidth);
      RowsNonEmpty(ps, n - 1, fabricWidth);
      AddPieceKeepsGreedy(Rows(ps, n - 1, fabricWidth), ps[n - 1], fabricWidth);
    }
  }

  /** The last row ends with the last piece taken. */
  lemma LastRowEndsWithLastPiece(ps: seq<Piece>, n: nat, fabricWidth: int)
    requires 0 < n <= |ps|
    ensures var rows := Rows(ps, n, fabricWidth);
      rows != [] && rows[|rows| - 1] != [] && rows[|rows| - 1][|rows[|rows| - 1]| - 1] == ps[n - 1]
  {
  }

  /** A row sorted tallest first is as tall as its first piece. */
  lemma {:induction false} MaxOfNonIncreasing(row: Row)
    requires row != [] && NonIncreasing(row)
    ensures MaxH(row) == row[0].h
  {
    var front := row[..|row| - 1];
    if front != [] {
      MaxOfNonIncreasing(front);
    }
  }

  /** Every row is non-empty, sorted tallest first, and as tall as its first piece. */
  predicate TallestFirstRows(rows: seq<Row>) {
    forall r :: 0 <= r < |rows| ==> rows[r] != [] && NonIncreasing(rows[r]) && MaxH(rows[r]) == rows[r][0].h
  }

  /** With the next piece no taller than the last one placed, one greedy step keeps every
      row sorted tallest first. */
  lemma AddPieceKeepsTallestFirst(rows: seq<Row>, p: Piece, fabricWidth: int)
    requires TallestFirstRows(rows)
    requires rows != [] ==> rows[|rows| - 1][|rows[|rows| - 1]| - 1].h >= p.h
    ensures TallestFirstRows(AddPiece(rows, p, fabricWidth))
  {
  }

  /** With pieces sorted tallest first, every row is sorted too, and its height is its first piece's. */
  lemma {:induction false} RowHeightIsFirstPiece(ps: seq<Piece>, n: nat, fabricWidth: int)
    requires n <= |ps| && NonIncreasing(ps)
    ensures TallestFirstRows(Rows(ps, n, fabricWidth))
  {
    if n > 0 {
      RowHeightIsFirstPiece(ps, n - 1, fabricWidth);
      if n > 1 {
        LastRowEndsWithLastPiece(ps, n - 1, fabricWidth);
        assert ps[n - 2].h >= ps[n - 1].h;
      }
      AddPieceKeepsTallestFirst(Rows(ps, n - 1, fabricWidth), ps[n - 1], fabricWidth);
    }
  }

  // ---------------------------------------------------------------------------
  // Placing the rows

  /** A piece added at the right end of a row widens it by the piece's width, raises it
      to the piece's height if taller, and is placed where the row ended. */
  lemma GrowRow(row: Row, p: Piece, y: int)
    ensures RowWidth(row + [p]) == RowWidth(row) + p.w
    ensures MaxH(row + [p]) == Max(MaxH(row), p.h)
    ensures RowLayout(row + [p], y) == RowLayout(row, y) + [Placement(RowWidth(row), y, p.w, p.h, p.index)]
  {
  }

  /** A piece alone in a row sits at its left edge and sets its width and height. */
  lemma StartRow(p: Piece, y: int)
    ensures RowWidth([p]) == p.w && MaxH([p]) == p.h
    ensures RowLayout([p], y) == [Placement(0, y, p.w, p.h, p.index)]
  {
  }

  /** Closing a row places it below the rows before it and adds its height to the length. */
  lemma CloseRow(rows: seq<Row>, row: Row)
    ensures Layout(rows + [row]) == Layout(rows) + RowLayout(row, Height(rows))
    ensures Height(rows + [row]) == Height(rows) + MaxH(row)
  {
  }

  /** Adding a piece to the rows adds exactly its next placement to their layout. */
  lemma LayoutOfAddPiece(rows: seq<Row>, p: Piece, fabricWidth: int)
    ensures Layout(AddPiece(rows, p, fabricWidth)) == Layout(rows) + [NextPlacement(rows, p, fabricWidth)]
  {
    if rows != [] && RowWidth(rows[|rows| - 1]) + p.w <= fabricWidth {
      LayoutOfGrownRow(rows, p);
    } else {
      StartRow(p, Height(rows));
      CloseRow(rows, [p]);
    }
  }

  /** Adding a piece to the last row places it at that row's right end, at the row's top. */
  lemma LayoutOfGrownRow(rows: seq<Row>, p: Piece)
    requires rows != []
    ensures Layout(rows[|rows| - 1 := rows[|rows| - 1] + [p]]) ==
      Layout(rows) + [Placement(RowWidth(rows[|rows| - 1]), Height(rows[..|rows| - 1]), p.w, p.h, p.index)]
  {
  }

  /** Inside a row, pieces sit left to right, each within the row's width and height. */
  lemma {:induction false} RowLayoutShape(row: Row, y: int)
    ensures |RowLayout(row, y)| == |row|
    ensures forall a :: 0 <= a < |row| ==>
      PieceOf(RowLayout(row, y)[a]) == row[a] && RowLayout(row, y)[a].y == y &&
      0 <= RowLayout(row, y)[a].x && RowLayout(row, y)[a].x + row[a].w <= RowWidth(row) &&
      row[a].h <= MaxH(row)
    ensures forall a, b :: 0 <= a < b < |row| ==>
      RowLayout(row, y)[a].x + RowLayout(row, y)[a].w <= RowLayout(row, y)[b].x
  {
    if row != [] {
      var front := row[..|row| - 1];
      RowLayoutShape(front, y);
    }
  }

  /** A row leaves no gaps: each piece starts where the one before it ends, and the last
      one ends at the row's width. */
  lemma {:induction false} RowLayoutGapless(row: Row, y: int)
    ensures |RowLayout(row, y)| == |row|
    ensures forall a :: 0 < a < |row| ==>
      RowLayout(row, y)[a].x == RowLayout(row, y)[a - 1].x + row[a - 1].w
    ensures row != [] ==> RowLayout(row, y)[|row| - 1].x + row[|row| - 1].w == RowWidth(row)
  {
    if row != [] {
      var front := row[..|row| - 1];
      RowLayoutGapless(front, y);
    }
  }

  /** The layout places the pieces of the rows, row after row, each piece once. */
  lemma {:induction false} LayoutPieces(rows: seq<Row>)
    ensures PiecesOf(Layout(rows)) == Concat(rows)
  {
    if rows != [] {
      var front, last := rows[..|rows| - 1], rows[|rows| - 1];
      LayoutPieces(front);
      RowLayoutShape(last, Height(front));
      var L, R := Layout(front), RowLayout(last, Height(front));
      assert PiecesOf(L + R) == PiecesOf(L) + PiecesOf(R);
      assert PiecesOf(R) == last;
    }
  }

  /** Every placement lies between 0 and the total length; rows never go back up the fabric. */
  lemma {:induction false} LayoutWithinLength(rows: seq<Row>)
    ensures forall a :: 0 <= a < |Layout(rows)| ==>
      0 <= Layout(rows)[a].y && Layout(rows)[a].y + Layout(rows)[a].h <= Height(rows)
    ensures forall a, b :: 0 <= a < b < |Layout(rows)| ==> Layout(rows)[a].y <= Layout(rows)[b].y
  {
    if rows != [] {
      var front, last := rows[..|rows| - 1], rows[|rows| - 1];
      LayoutWithinLength(front);
      RowLayoutShape(last, Height(front));
      var L, R := Layout(front), RowLayout(last, Height(front));
      assert forall a :: 0 <= a < |L| ==> (L + R)[a] == L[a];
      assert forall a :: |L| <= a < |L + R| ==> (L + R)[a] == R[a - |L|];
    }
  }

  /** When every row fits the fabric width, every placement does. */
  lemma {:induction false} LayoutInWidth(rows: seq<Row>, fabricWidth: int)
    requires forall r :: 0 <= r < |rows| ==> RowWidth(rows[r]) <= fabricWidth
    ensures forall a :: 0 <= a < |Layout(rows)| ==>
      0 <= Layout(rows)[a].x && Layout(rows)[a].x + Layout(rows)[a].w <= fabricWidth
  {
    if rows != [] {
      var front, last := rows[..|rows| - 1], rows[|rows| - 1];
      LayoutInWidth(front, fabricWidth);
      RowLayoutShape(last, Height(front));
    }
  }

  /** No two placed pieces overlap: within a row their x-intervals are disjoint,
      across rows their y-intervals are. */
  lemma {:induction false} LayoutNoOverlap(rows: seq<Row>)
    ensures forall a, b :: 0 <= a < |Layout(rows)| && 0 <= b < |Layout(rows)| && a != b ==>
      !Overlap(Layout(rows)[a], Layout(rows)[b])
  {
    if rows != [] {
      var front, last := rows[..|rows| - 1], rows[|rows| - 1];
      LayoutNoOverlap(front);
      LayoutWithinLength(front);
      RowLayoutShape(last, Height(front));
      var L, R := Layout(front), RowLayout(last, Height(front));
      forall a, b | 0 <= a < |L + R| && 0 <= b < |L + R| && a != b
        ensures !Overlap((L + R)[a], (L + R)[b])
      {
        if a < |L| && b < |L| {
        } else if a >= |L| && b >= |L| {
          if a < b {
            assert R[a - |L|].x + R[a - |L|].w <= R[b - |L|].x;
          } else {
            assert R[b - |L|].x + R[b - |L|].w <= R[a - |L|].x;
          }
        } else if a < |L| {
          assert L[a].y + L[a].h <= Height(front) == R[b - |L|].y;
        } else {
          assert L[b].y + L[b].h <= Height(front) == R[a - |L|].y;
        }
      }
    }
  }

  /** Rows are stacked: a placement higher up the fabric than another ends at or above the
      other's top edge, so pieces of different rows have disjoint y-intervals. */
  lemma {:induction false} LayoutRowsStacked(rows: seq<Row>)
    ensures forall a, b :: 0 <= a < b < |Layout(rows)| && Layout(rows)[a].y < Layout(rows)[b].y ==>
      Layout(rows)[a].y + Layout(rows)[a].h <= Layout(rows)[b].y
  {
    if rows != [] {
      var front, last := rows[..|rows| - 1], rows[|rows| - 1];
      LayoutRowsStacked(front);
      LayoutWithinLength(front);
      RowLayoutShape(last, Height(front));
      var L, R := Layout(front), RowLayout(last, Height(front));
      assert forall a :: 0 <= a < |L| ==> (L + R)[a] == L[a];
      assert forall a :: |L| <= a < |L + R| ==> (L + R)[a] == R[a - |L|];
    }
  }

  /** The first piece is placed in the corner at (0, 0). */
  lemma {:induction false} LayoutStartsAtOrigin(rows: seq<Row>)
    requires rows != [] && rows[0] != []
    ensures Layout(rows) != [] && Layout(rows)[0].x == 0 && Layout(rows)[0].y == 0
  {
    var front, last := rows[..|rows| - 1], rows[|rows| - 1];
    if front == [] {
      assert Layout(rows) == RowLayout(last, 0);
      RowLayoutStartsAtZero(last, 0);
    } else {
      assert front[0] == rows[0];
      LayoutStartsAtOrigin(front);
    }
  }

  /** A row's first piece is at its left edge. */
  lemma {:induction false} RowLayoutStartsAtZero(row: Row, y: int)
    requires row != []
    ensures RowLayout(row, y) != [] && RowLayout(row, y)[0].x == 0 && RowLayout(row, y)[0].y == y
  {
    var front := row[..|row| - 1];
    if front != [] {
      RowLayoutStartsAtZero(front, y);
    }
  }

  // ---------------------------------------------------------------------------
  // The sort order

  /** Two sequences sorted by Before with the same elements start with the same piece:
      the first piece of each comes before every other piece of the same multiset. */
  lemma OrderedHeadsAgree(s: seq<Piece>, t: seq<Piece>)
    requires multiset(s) == multiset(t) && s != []
    requires HeightOrdered(s) && HeightOrdered(t)
    ensures t != [] && s[0] == t[0]
  {
    assert s[0] in multiset(t);
    var j :| 0 <= j < |t| && t[j] == s[0];
    assert t[0] in multiset(s);
    var i :| 0 <= i < |s| && s[i] == t[0];
    if j != 0 {
      assert false;
    }
  }

  /** Dropping the first piece of a sequence removes just that piece from its multiset. */
  lemma DropFirst(s: seq<Piece>)
    requires s != []
    ensures multiset(s[1..]) == multiset(s) - multiset{s[0]}
  {
    assert s == [s[0]] + s[1..];
  }

  /** Two sequences sorted by Before with the same elements are the same sequence:
      the tallest-first order with ties by index leaves no choice. */
  lemma {:induction false} OrderedUnique(s: seq<Piece>, t: seq<Piece>)
    requires multiset(s) == multiset(t)
    requires HeightOrdered(s) && HeightOrdered(t)
    ensures s == t
    decreases |s|
  {
    assert |s| == |multiset(s)| == |multiset(t)| == |t|;
    if s != [] {
      OrderedHeadsAgree(s, t);
      DropFirst(s);
      DropFirst(t);
      OrderedUnique(s[1..], t[1..]);
      assert s == [s[0]] + s[1..];
      assert t == [t[0]] + t[1..];
    }
  }
}
