/**
 * The fabric packer: reject a set of pieces when one is wider than the fabric,
 * otherwise sort the pieces tallest first and place them in one greedy pass
 * of shelves, returning the length of fabric used and where each piece goes.
 */
module Yardage {
  import opened Shelves

  /** The packer's answer: no layout when a piece is wider than the fabric,
      otherwise the length used and one placement per piece, in sorted order. */
  datatype PackResult = Infeasible | Packed(length: nat, layout: seq<Placement>)

  function Min(a: nat, b: nat): nat { if a < b then a else b }

  /** Some piece is wider than the fabric (every width is checked, even past the last height). */
  predicate HasOversized(widths: seq<nat>, fabricWidth: int) {
    exists i :: 0 <= i < |widths| && widths[i] > fabricWidth
  }

  /** Pairs widths with heights (stopping at the shorter list) and tags each piece with its position. */
  function Tag(widths: seq<nat>, heights: seq<nat>): seq<Piece> {
    seq(Min(|widths|, |heights|), i requires 0 <= i < Min(|widths|, |heights|) => Piece(widths[i], heights[i], i))
  }

  /** What a correct answer is: infeasible exactly when a piece is too wide; otherwise the
      layout lists the tagged pieces tallest first (ties by position), placed by the greedy
      row policy, and the length is the sum of the row heights. */
  ghost predicate IsShelfPacking(widths: seq<nat>, heights: seq<nat>, fabricWidth: int, r: PackResult) {
    match r
    case Infeasible => HasOversized(widths, fabricWidth)
    case Packed(length, layout) =>
      && !HasOversized(widths, fabricWidth)
      && multiset(PiecesOf(layout)) == multiset(Tag(widths, heights))
      && HeightOrdered(PiecesOf(layout))
      && layout == Layout(Rows(PiecesOf(layout), |layout|, fabricWidth))
      && length == Height(Rows(PiecesOf(layout), |layout|, fabricWidth))
  }

  /** Stable sort by height, tallest first: insertion sort that puts each piece after
      every piece already sorted that is at least as tall. */
  method SortByHeight(ps: seq<Piece>) returns (s: seq<Piece>)
    requires forall a, b :: 0 <= a < b < |ps| ==> ps[a].index < ps[b].index
    ensures multiset(s) == multiset(ps)
    ensures HeightOrdered(s)
  {
    s := [];
    for i := 0 to |ps|
      invariant SortedPrefix(ps, i, s)
    {
      var j := InsertionPoint(s, ps[i]);
      InsertStep(ps, i, s, j);
      s := s[..j] + [ps[i]] + s[j..];
    }
    assert ps[..|ps|] == ps;
  }

  /** The insertion sort's state after i pieces: s holds exactly the first i pieces, tallest
      first with ties in input order, and all their indices are below the next piece's. */
  ghost predicate SortedPrefix(ps: seq<Piece>, i: nat, s: seq<Piece>) {
    && i <= |ps|
    && multiset(s) == multiset(ps[..i])
    && HeightOrdered(s)
    && (i < |ps| ==> forall a :: 0 <= a < |s| ==> s[a].index < ps[i].index)
  }

  /** Inserting the next piece at its insertion point extends the sorted prefix by one. */
  lemma InsertStep(ps: seq<Piece>, i: nat, s: seq<Piece>, j: nat)
    requires forall a, b :: 0 <= a < b < |ps| ==> ps[a].index < ps[b].index
    requires SortedPrefix(ps, i, s) && i < |ps|
    requires j <= |s|
    requires forall a :: 0 <= a < j ==> s[a].h >= ps[i].h
    requires j < |s| ==> s[j].h < ps[i].h
    ensures SortedPrefix(ps, i + 1, s[..j] + [ps[i]] + s[j..])
  {
    var p := ps[i];
    InsertSorted(s, j, p);
    InsertAdds(s, j, p);
    assert ps[..i + 1] == ps[..i] + [p];
  }

  /** Where a piece goes among pieces sorted tallest first: after every piece at least
      as tall, before the first shorter one. */
  method InsertionPoint(s: seq<Piece>, p: Piece) returns (j: nat)
    ensures j <= |s|
    ensures forall a :: 0 <= a < j ==> s[a].h >= p.h
    ensures j < |s| ==> s[j].h < p.h
  {
    j := 0;
    while j < |s| && s[j].h >= p.h
      invariant j <= |s|
      invariant forall a :: 0 <= a < j ==> s[a].h >= p.h
    {
      j := j + 1;
    }
  }

  /** Inserting a piece anywhere adds just that piece to the multiset of pieces. */
  lemma InsertAdds(s: seq<Piece>, j: nat, p: Piece)
    requires j <= |s|
    ensures multiset(s[..j] + [p] + s[j..]) == multiset(s) + multiset{p}
  {
    assert s == s[..j] + s[j..];
  }

  /** Inserting a piece after every piece at least as tall, and before the shorter ones,
      keeps the order; the piece's index is above all those already sorted. */
  lemma InsertSorted(s: seq<Piece>, j: nat, p: Piece)
    requires j <= |s| && HeightOrdered(s)
    requires forall a :: 0 <= a < j ==> s[a].h >= p.h
    requires j < |s| ==> s[j].h < p.h
    requires forall a :: 0 <= a < |s| ==> s[a].index < p.index
    ensures HeightOrdered(s[..j] + [p] + s[j..])
    ensures forall a :: 0 <= a < |s| + 1 ==> (s[..j] + [p] + s[j..])[a].index <= p.index
  {
  }

  // ---------------------------------------------------------------------------
  // The packing pass

  /** The rows formed so far: the closed rows, then the open row once it holds a piece. */
  ghost function Shelved(closed: seq<Row>, open: Row): seq<Row> {
    if open == [] then closed else closed + [open]
  }

  /** The pass's variables after k pieces: the rows formed so far are the greedy rows of
      those pieces, the layout is their placements, the length is the height of the closed
      rows, and the row height, cursor and remaining width describe the open row. */
  ghost predicate PassState(sorted: seq<Piece>, k: nat, fabricWidth: int, closed: seq<Row>, open: Row,
                            layout: seq<Placement>, totalLength: nat, currentRowHeight: nat,
                            xCursor: nat, remainingWidth: int)
  {
    && k <= |sorted|
    && Rows(sorted, k, fabricWidth) == Shelved(closed, open)
    && (open == [] ==> closed == [])
    && layout == Layout(Shelved(closed, open))
    && totalLength == Height(closed)
    && currentRowHeight == MaxH(open)
    && xCursor == RowWidth(open)
    && remainingWidth == fabricWidth - xCursor
  }

  /** A piece that fits in the width left goes to the right of the open row, at the
      open row's top. */
  lemma PlaceInRow(sorted: seq<Piece>, k: nat, fabricWidth: int, closed: seq<Row>, open: Row,
                   layout: seq<Placement>, totalLength: nat, currentRowHeight: nat,
                   xCursor: nat, remainingWidth: int)
    requires PassState(sorted, k, fabricWidth, closed, open, layout, totalLength, currentRowHeight, xCursor, remainingWidth)
    requires k < |sorted| && sorted[k].w <= remainingWidth
    ensures var p := sorted[k];
      PassState(sorted, k + 1, fabricWidth, closed, open + [p],
                layout + [Placement(xCursor, totalLength, p.w, p.h, p.index)],
                totalLength, Max(currentRowHeight, p.h), xCursor + p.w, remainingWidth - p.w)
  {
    var p := sorted[k];
    GrowRow(open, p, totalLength);
    if open == [] {
      assert [] + [p] == [p];
      StartRow(p, 0);
      CloseRow([], [p]);
    } else {
      var rows := closed + [open];
      assert rows[..|rows| - 1] == closed;
      CloseRow(closed, open);
      CloseRow(closed, open + [p]);
      var q := Placement(xCursor, totalLength, p.w, p.h, p.index);
      assert Layout(closed) + (RowLayout(open, totalLength) + [q]) == (Layout(closed) + RowLayout(open, totalLength)) + [q];
    }
  }

  /** A piece that does not fit closes the open row, whose height is added to the length,
      and opens a new row below it holding that piece alone at the left edge. */
  lemma StartNewRow(sorted: seq<Piece>, k: nat, fabricWidth: int, closed: seq<Row>, open: Row,
                    layout: seq<Placement>, totalLength: nat, currentRowHeight: nat,
                    xCursor: nat, remainingWidth: int)
    requires PassState(sorted, k, fabricWidth, closed, open, layout, totalLength, currentRowHeight, xCursor, remainingWidth)
    requires k < |sorted| && remainingWidth < sorted[k].w <= fabricWidth
    ensures var p := sorted[k];
      PassState(sorted, k + 1, fabricWidth, closed + [open], [p],
                layout + [Placement(0, totalLength + currentRowHeight, p.w, p.h, p.index)],
                totalLength + currentRowHeight, p.h, p.w, fabricWidth - p.w)
  {
    var p := sorted[k];
    var rows := closed + [open];
    assert rows[..|rows| - 1] == closed;
    CloseRow(closed, open);
    CloseRow(rows, [p]);
    StartRow(p, totalLength + currentRowHeight);
  }

  /** Closing the last row at the end of the pass yields the layout and length of the
      greedy rows of all the pieces. */
  lemma FinishPass(sorted: seq<Piece>, fabricWidth: int, closed: seq<Row>, open: Row,
                   layout: seq<Placement>, totalLength: nat, currentRowHeight: nat,
                   xCursor: nat, remainingWidth: int)
    requires PassState(sorted, |sorted|, fabricWidth, closed, open, layout, totalLength, currentRowHeight, xCursor, remainingWidth)
    ensures layout == Layout(Rows(sorted, |sorted|, fabricWidth))
    ensures totalLength + currentRowHeight == Height(Rows(sorted, |sorted|, fabricWidth))
  {
  }

  /** The packing pass over the sorted pieces: fill the open row left to right, close it
      when a piece does not fit and open the next row below it, close the last row at the end.
      The result is the greedy row layout of the pieces, and the length is the sum of the
      row heights. */
  method ShelvePass(sorted: seq<Piece>, fabricWidth: int) returns (totalLength: nat, layout: seq<Placement>)
    requires forall k :: 0 <= k < |sorted| ==> sorted[k].w <= fabricWidth
    ensures layout == Layout(Rows(sorted, |sorted|, fabricWidth))
    ensures totalLength == Height(Rows(sorted, |sorted|, fabricWidth))
  {
    totalLength := 0;
    var remainingWidth: int := fabricWidth;
    var currentRowHeight: nat := 0;
    var xCursor: nat := 0;
    layout := [];
    ghost var closed: seq<Row>, open: Row := [], [];
    for k := 0 to |sorted|
      invariant PassState(sorted, k, fabricWidth, closed, open, layout, totalLength, currentRowHeight, xCursor, remainingWidth)
      invariant 0 < k ==> 0 <= remainingWidth && xCursor <= fabricWidth
    {
      var p := sorted[k];
      if p.w <= remainingWidth {
        PlaceInRow(sorted, k, fabricWidth, closed, open, layout, totalLength, currentRowHeight, xCursor, remainingWidth);
        layout := layout + [Placement(xCursor, totalLength, p.w, p.h, p.index)];
        xCursor := xCursor + p.w;
        remainingWidth := remainingWidth - p.w;
        currentRowHeight := Max(currentRowHeight, p.h);
        open := open + [p];
      } else {
        StartNewRow(sorted, k, fabricWidth, closed, open, layout, totalLength, currentRowHeight, xCursor, remainingWidth);
        totalLength := totalLength + currentRowHeight;
        layout := layout + [Placement(0, totalLength, p.w, p.h, p.index)];
        xCursor := p.w;
        remainingWidth := fabricWidth - p.w;
        currentRowHeight := p.h;
        closed, open := closed + [open], [p];
      }
    }
    FinishPass(sorted, fabricWidth, closed, open, layout, totalLength, currentRowHeight, xCursor, remainingWidth);
    totalLength := totalLength + currentRowHeight;
  }

  /** The packer: no answer when some piece is wider than the fabric; otherwise the pieces,
      tagged with their positions, sorted tallest first and packed in one greedy pass. */
  method Pack(widths: seq<nat>, heights: seq<nat>, fabricWidth: int) returns (r: PackResult)
    ensures r.Infeasible? <==> HasOversized(widths, fabricWidth)
    ensures IsShelfPacking(widths, heights, fabricWidth, r)
  {
    if HasOversized(widths, fabricWidth) {
      return Infeasible;
    }
    var pieces := Tag(widths, heights);
    var sorted := SortByHeight(pieces);
    forall k | 0 <= k < |sorted| ensures sorted[k].w <= fabricWidth {
      assert sorted[k] in multiset(pieces);
    }
    var totalLength, layout := ShelvePass(sorted, fabricWidth);
    PassIsShelfPacking(widths, heights, fabricWidth, sorted, totalLength, layout);
    return Packed(totalLength, layout);
  }

  /** Laying out the sorted tagged pieces row by row gives a correct answer. */
  lemma PassIsShelfPacking(widths: seq<nat>, heights: seq<nat>, fabricWidth: int, sorted: seq<Piece>,
                           length: nat, layout: seq<Placement>)
    requires !HasOversized(widths, fabricWidth)
    requires multiset(sorted) == multiset(Tag(widths, heights)) && HeightOrdered(sorted)
    requires layout == Layout(Rows(sorted, |sorted|, fabricWidth))
    requires length == Height(Rows(sorted, |sorted|, fabricWidth))
    ensures IsShelfPacking(widths, heights, fabricWidth, Packed(length, layout))
  {
    RowsPartition(sorted, |sorted|, fabricWidth);
    LayoutPieces(Rows(sorted, |sorted|, fabricWidth));
    assert sorted[..|sorted|] == sorted;
  }

  /** Positions of the pieces a layout places, in layout order. */
  function Indices(layout: seq<Placement>): seq<nat> {
    seq(|layout|, a requires 0 <= a < |layout| => layout[a].index)
  }

  /** Every correct layout has one placement per input piece, and each placement names an
      input position and carries that piece's width and height. */
  lemma PackingPlacesInputPieces(widths: seq<nat>, heights: seq<nat>, fabricWidth: int, length: nat, layout: seq<Placement>)
    requires IsShelfPacking(widths, heights, fabricWidth, Packed(length, layout))
    ensures |layout| == Min(|widths|, |heights|)
    ensures forall a :: 0 <= a < |layout| ==>
      layout[a].index < Min(|widths|, |heights|) &&
      layout[a].w == widths[layout[a].index] && layout[a].h == heights[layout[a].index]
  {
    var order := PiecesOf(layout);
    var pieces := Tag(widths, heights);
    assert |order| == |multiset(order)| == |multiset(pieces)| == |pieces|;
    forall a | 0 <= a < |layout|
      ensures layout[a].index < |pieces|
      ensures layout[a].w == widths[layout[a].index] && layout[a].h == heights[layout[a].index]
    {
      assert order[a] in multiset(pieces);
      assert PieceOf(layout[a]) == order[a] == pieces[order[a].index];
    }
  }

  /** The positions a correct layout names are exactly 0..n-1, each once. */
  lemma PackingPlacesEachPieceOnce(widths: seq<nat>, heights: seq<nat>, fabricWidth: int, length: nat, layout: seq<Placement>)
    requires IsShelfPacking(widths, heights, fabricWidth, Packed(length, layout))
    ensures forall k: nat :: k < Min(|widths|, |heights|) ==> k in Indices(layout)
    ensures forall a, b :: 0 <= a < b < |layout| ==> layout[a].index != layout[b].index
  {
    var order := PiecesOf(layout);
    var pieces := Tag(widths, heights);
    forall k: nat | k < |pieces| ensures k in Indices(layout) {
      assert pieces[k] in multiset(order);
      var a :| 0 <= a < |order| && order[a] == pieces[k];
      assert Indices(layout)[a] == k;
    }
    forall a, b | 0 <= a < b < |layout| ensures layout[a].index != layout[b].index {
      assert Before(order[a], order[b]);
      assert order[a] in multiset(pieces) && order[b] in multiset(pieces);
    }
  }

  /** Every correct layout keeps each piece inside the fabric's width and the reported
      length, stacks rows downwards, and starts in the corner. */
  lemma PackingInBounds(widths: seq<nat>, heights: seq<nat>, fabricWidth: int, length: nat, layout: seq<Placement>)
    requires IsShelfPacking(widths, heights, fabricWidth, Packed(length, layout))
    ensures forall a :: 0 <= a < |layout| ==> 0 <= layout[a].x && layout[a].x + layout[a].w <= fabricWidth
    ensures forall a :: 0 <= a < |layout| ==> 0 <= layout[a].y && layout[a].y + layout[a].h <= length
    ensures forall a, b :: 0 <= a < b < |layout| ==> layout[a].y <= layout[b].y
    ensures layout != [] ==> layout[0].x == 0 && layout[0].y == 0
  {
    var order := PiecesOf(layout);
    var rows := Rows(order, |order|, fabricWidth);
    forall i | 0 <= i < |order| ensures order[i].w <= fabricWidth {
      assert order[i] in multiset(Tag(widths, heights));
    }
    RowsFit(order, |order|, fabricWidth);
    LayoutInWidth(rows, fabricWidth);
    LayoutWithinLength(rows);
    if layout != [] {
      RowsPartition(order, |order|, fabricWidth);
      RowsNonEmpty(order, |order|, fabricWidth);
      assert rows != [] && rows[0] != [];
      LayoutStartsAtOrigin(rows);
    }
  }

  /** No two pieces of a correct layout overlap, and a piece placed higher up the fabric than
      a later one ends at or above that one's top edge. */
  lemma PackingNoOverlap(widths: seq<nat>, heights: seq<nat>, fabricWidth: int, length: nat, layout: seq<Placement>)
    requires IsShelfPacking(widths, heights, fabricWidth, Packed(length, layout))
    ensures forall a, b :: 0 <= a < |layout| && 0 <= b < |layout| && a != b ==> !Overlap(layout[a], layout[b])
    ensures forall a, b :: 0 <= a < b < |layout| && layout[a].y < layout[b].y ==> layout[a].y + layout[a].h <= layout[b].y
  {
    LayoutNoOverlap(Rows(PiecesOf(layout), |layout|, fabricWidth));
    LayoutRowsStacked(Rows(PiecesOf(layout), |layout|, fabricWidth));
  }

  /** No pieces: nothing placed and no fabric used. */
  lemma PackingOfNothing(widths: seq<nat>, heights: seq<nat>, fabricWidth: int, r: PackResult)
    requires IsShelfPacking(widths, heights, fabricWidth, r)
    requires Min(|widths|, |heights|) == 0 && !HasOversized(widths, fabricWidth)
    ensures r == Packed(0, [])
  {
    assert |multiset(PiecesOf(r.layout))| == 0;
  }

  /** The answer is determined by the input: any two correct answers are equal. */
  lemma PackingUnique(widths: seq<nat>, heights: seq<nat>, fabricWidth: int, r1: PackResult, r2: PackResult)
    requires IsShelfPacking(widths, heights, fabricWidth, r1)
    requires IsShelfPacking(widths, heights, fabricWidth, r2)
    ensures r1 == r2
  {
    if r1.Packed? && r2.Packed? {
      OrderedUnique(PiecesOf(r1.layout), PiecesOf(r2.layout));
    }
  }
}
