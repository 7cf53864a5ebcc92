/**
 * Where MyFlowLayout's layout pass puts each recorded child, in closed form.
 *
 * The pass walks the rows with an X and a Y cursor; the functions here say
 * where the cursors stand without the walk: the j-th child of row i starts at
 * the left padding plus the width its row-mates before it use, and at the top
 * padding plus the heights of the rows above it, each with one vertical
 * spacing.
 */
module Placement {
  import opened Packing

  /** The rectangle a child is laid out in: left, top, right, bottom. */
  datatype Box = Box(child: nat, left: int, top: int, right: int, bottom: int)

  /** The left edge of the j-th child of a row. */
  function LeftOf(cs: seq<Child>, row: seq<nat>, j: nat, paddingLeft: int, hSpacing: nat): (left: int)
    requires j <= |row|
  {
    paddingLeft + RowWidth(cs, row[..j], hSpacing)
  }

  /** The top edge of every child of row i. */
  function TopOf(heights: seq<nat>, i: nat, paddingTop: int, vSpacing: nat): (top: int)
    requires i <= |heights|
  {
    paddingTop + SumHeights(heights[..i], vSpacing)
  }

  /** The position, in the layout pass's output, of the j-th child of row i. */
  function Slot(rows: seq<seq<nat>>, i: nat, j: nat): (n: nat)
    requires i <= |rows|
  {
    |Flatten(rows[..i])| + j
  }

  /** The box of the j-th child of row i: its measured size at (LeftOf, TopOf). */
  function PlacedBox(cs: seq<Child>, rows: seq<seq<nat>>, heights: seq<nat>, i: nat, j: nat,
                     paddingLeft: int, paddingTop: int, hSpacing: nat, vSpacing: nat): (b: Box)
    requires |heights| == |rows| && i < |rows| && j < |rows[i]|
  {
    var left := LeftOf(cs, rows[i], j, paddingLeft, hSpacing);
    var top := TopOf(heights, i, paddingTop, vSpacing);
    Box(rows[i][j], left, top, left + WidthOf(cs, rows[i][j]), top + HeightOf(cs, rows[i][j]))
  }

  /** The children the boxes belong to, in output order. */
  function Children(boxes: seq<Box>): (s: seq<nat>)
    ensures |s| == |boxes|
    ensures forall k :: 0 <= k < |boxes| ==> s[k] == boxes[k].child
  {
    seq(|boxes|, k requires 0 <= k < |boxes| => boxes[k].child)
  }

  /** The boxes already hold the first n children of row i, each where PlacedBox puts it. */
  predicate RowPlaced(cs: seq<Child>, rows: seq<seq<nat>>, heights: seq<nat>, boxes: seq<Box>, i: nat, n: nat,
                      paddingLeft: int, paddingTop: int, hSpacing: nat, vSpacing: nat)
    requires |heights| == |rows| && i < |rows| && n <= |rows[i]|
  {
    forall j :: 0 <= j < n ==>
      Slot(rows, i, j) < |boxes| &&
      boxes[Slot(rows, i, j)] == PlacedBox(cs, rows, heights, i, j, paddingLeft, paddingTop, hSpacing, vSpacing)
  }

  /** Appending a box keeps every box already placed. */
  lemma RowPlacedAppend(cs: seq<Child>, rows: seq<seq<nat>>, heights: seq<nat>, boxes: seq<Box>, b: Box, i: nat, n: nat,
                        paddingLeft: int, paddingTop: int, hSpacing: nat, vSpacing: nat)
    requires |heights| == |rows| && i < |rows| && n <= |rows[i]|
    requires RowPlaced(cs, rows, heights, boxes, i, n, paddingLeft, paddingTop, hSpacing, vSpacing)
    ensures RowPlaced(cs, rows, heights, boxes + [b], i, n, paddingLeft, paddingTop, hSpacing, vSpacing)
  {
    forall j | 0 <= j < n
      ensures (boxes + [b])[Slot(rows, i, j)] == boxes[Slot(rows, i, j)]
    {
    }
  }

  lemma ChildrenAppend(boxes: seq<Box>, b: Box)
    ensures Children(boxes + [b]) == Children(boxes) + [b.child]
  {
  }

  /**
   * One step of the layout pass: appending the box of the j-th child of row i
   * after the boxes of everything before it keeps all of them in place.
   */
  lemma LayoutStep(cs: seq<Child>, rows: seq<seq<nat>>, heights: seq<nat>, boxes: seq<Box>, b: Box, i: nat, j: nat,
                   paddingLeft: int, paddingTop: int, hSpacing: nat, vSpacing: nat)
    requires |heights| == |rows| && i < |rows| && j < |rows[i]|
    requires Children(boxes) == Flatten(rows[..i]) + rows[i][..j]
    requires forall i' :: 0 <= i' < i ==>
      RowPlaced(cs, rows, heights, boxes, i', |rows[i']|, paddingLeft, paddingTop, hSpacing, vSpacing)
    requires RowPlaced(cs, rows, heights, boxes, i, j, paddingLeft, paddingTop, hSpacing, vSpacing)
    requires b == PlacedBox(cs, rows, heights, i, j, paddingLeft, paddingTop, hSpacing, vSpacing)
    ensures Children(boxes + [b]) == Flatten(rows[..i]) + rows[i][..j + 1]
    ensures forall i' :: 0 <= i' < i ==>
      RowPlaced(cs, rows, heights, boxes + [b], i', |rows[i']|, paddingLeft, paddingTop, hSpacing, vSpacing)
    ensures RowPlaced(cs, rows, heights, boxes + [b], i, j + 1, paddingLeft, paddingTop, hSpacing, vSpacing)
  {
    ChildrenAppend(boxes, b);
    assert rows[i][..j + 1] == rows[i][..j] + [rows[i][j]];
    forall i' | 0 <= i' < i
      ensures RowPlaced(cs, rows, heights, boxes + [b], i', |rows[i']|, paddingLeft, paddingTop, hSpacing, vSpacing)
    {
      RowPlacedAppend(cs, rows, heights, boxes, b, i', |rows[i']|, paddingLeft, paddingTop, hSpacing, vSpacing);
    }
    RowPlacedAppend(cs, rows, heights, boxes, b, i, j, paddingLeft, paddingTop, hSpacing, vSpacing);
    assert Slot(rows, i, j) == |boxes|;
  }

  lemma WidthStep(cs: seq<Child>, row: seq<nat>, j: nat, hSpacing: nat)
    requires j < |row|
    ensures RowWidth(cs, row[..j + 1], hSpacing) == RowWidth(cs, row[..j], hSpacing) + WidthOf(cs, row[j]) + hSpacing
  {
    assert row[..j + 1] == row[..j] + [row[j]];
    RowWidthAppend(cs, row[..j], row[j], hSpacing);
  }

  lemma HeightStep(heights: seq<nat>, i: nat, vSpacing: nat)
    requires i < |heights|
    ensures SumHeights(heights[..i + 1], vSpacing) == SumHeights(heights[..i], vSpacing) + heights[i] + vSpacing
  {
    assert heights[..i + 1] == heights[..i] + [heights[i]];
    SumHeightsAppend(heights[..i], heights[i], vSpacing);
  }

  /** The first child of every non-empty row starts at the left padding. */
  lemma RowStartsAtPadding(cs: seq<Child>, rows: seq<seq<nat>>, heights: seq<nat>, i: nat,
                           paddingLeft: int, paddingTop: int, hSpacing: nat, vSpacing: nat)
    requires |heights| == |rows| && i < |rows| && 0 < |rows[i]|
    ensures PlacedBox(cs, rows, heights, i, 0, paddingLeft, paddingTop, hSpacing, vSpacing).left == paddingLeft
  {
    assert rows[i][..0] == [];
  }

  /**
   * Within a row each next child starts one horizontal spacing after the
   * previous one ends, and all share one top edge.
   */
  lemma {:induction false} RowAdjacency(cs: seq<Child>, rows: seq<seq<nat>>, heights: seq<nat>, i: nat, j: nat,
                                        paddingLeft: int, paddingTop: int, hSpacing: nat, vSpacing: nat)
    requires |heights| == |rows| && i < |rows| && j + 1 < |rows[i]|
    ensures PlacedBox(cs, rows, heights, i, j + 1, paddingLeft, paddingTop, hSpacing, vSpacing).left ==
            PlacedBox(cs, rows, heights, i, j, paddingLeft, paddingTop, hSpacing, vSpacing).right + hSpacing
    ensures PlacedBox(cs, rows, heights, i, j + 1, paddingLeft, paddingTop, hSpacing, vSpacing).top ==
            PlacedBox(cs, rows, heights, i, j, paddingLeft, paddingTop, hSpacing, vSpacing).top
  {
    WidthStep(cs, rows[i], j, hSpacing);
  }

  /**
   * Every box of a measure pass's rows lies within the padding plus the
   * content size (`flowWidth`, `flowHeight`): its right edge leaves at least
   * two horizontal spacings (the trailing one counted twice) and its bottom
   * edge one vertical spacing.
   */
  lemma {:induction false} LayoutWithinContent(cs: seq<Child>, p: Params, paddingLeft: int, paddingTop: int, i: nat, j: nat)
    requires i < |Pack(cs, p).rows| && j < |Pack(cs, p).rows[i]|
    ensures var st := Pack(cs, p);
      |st.heights| == |st.rows| &&
      var b := PlacedBox(cs, st.rows, st.heights, i, j, paddingLeft, paddingTop, p.hSpacing, p.vSpacing);
      b.right + 2 * p.hSpacing <= paddingLeft + st.flowWidth &&
      b.bottom + p.vSpacing <= paddingTop + st.flowHeight
  {
    var st := Pack(cs, p);
    PackRowHeights(cs, p);
    PackContentSize(cs, p);
    var row := st.rows[i];
    // Horizontally: right + spacing is the width of the row up to this child.
    WidthStep(cs, row, j, p.hSpacing);
    RowWidthPrefix(cs, row, j + 1, p.hSpacing);
    assert RowWidth(cs, row, p.hSpacing) + p.hSpacing <= st.flowWidth;
    // Vertically: the child is no taller than its row, which ends above the content bottom.
    assert IsTallest(cs, row, st.heights[i]);
    assert HeightOf(cs, row[j]) <= st.heights[i];
    HeightStep(st.heights, i, p.vSpacing);
    SumHeightsPrefix(st.heights, i + 1, p.vSpacing);
  }
}
