/**
 * The MyFlowLayout container: the two instance lists that the measure pass
 * clears and rebuilds, the measured size it reports, and the layout pass that
 * replays the lists.
 *
 * A child view is an index into the sequence of measured children the host
 * hands to the measure pass; the object keeps that sequence so that the layout
 * pass reads the same measured sizes the views carry after measuring.
 */
module FlowLayoutView {
  import opened Packing
  import opened Placement

  /** The mode half of a measure spec. */
  datatype MeasureMode = Exactly | AtMost | Unspecified

  class MyFlowLayout {
    const hSpacing: nat
    const vSpacing: nat

    /** The rows of the last measure pass, as child indices (`mAllLineViewsList`). */
    var rows: seq<seq<nat>>
    /** Their heights (`mAllLineHeights`). */
    var heights: seq<nat>
    /** The measured children of the last measure pass. */
    var children: seq<Child>
    /** The size passed to `setMeasuredDimension`. */
    var measuredWidth: nat
    var measuredHeight: nat

    /** The two lists are in lockstep and name only measured children. */
    predicate Valid()
      reads this
    {
      |rows| == |heights| && RowsInRange(children, rows)
    }

    /** The spacings resolved from density-independent units at construction. */
    constructor (hSpacing: nat, vSpacing: nat)
      ensures Valid()
      ensures this.hSpacing == hSpacing && this.vSpacing == vSpacing
      ensures rows == [] && heights == [] && children == []
      ensures measuredWidth == 0 && measuredHeight == 0
    {
      this.hSpacing, this.vSpacing := hSpacing, vSpacing;
      rows, heights, children := [], [], [];
      measuredWidth, measuredHeight := 0, 0;
    }

    method ClearMeasureParams()
      modifies this
      ensures rows == [] && heights == []
      ensures children == old(children)
      ensures measuredWidth == old(measuredWidth) && measuredHeight == old(measuredHeight)
      ensures Valid()
    {
      rows := [];
      heights := [];
    }

    /**
     * The measure pass. The recorded rows, heights and reported size depend on
     * the inputs alone, never on what an earlier pass left behind.
     */
    method Measure(cs: seq<Child>, widthSize: nat, widthMode: MeasureMode, heightSize: nat, heightMode: MeasureMode)
      modifies this
      ensures Valid()
      ensures children == cs
      ensures rows == Pack(cs, Params(widthSize, hSpacing, vSpacing)).rows
      ensures heights == Pack(cs, Params(widthSize, hSpacing, vSpacing)).heights
      ensures measuredWidth == if widthMode == Exactly then widthSize else Pack(cs, Params(widthSize, hSpacing, vSpacing)).flowWidth
      ensures measuredHeight == if heightMode == Exactly then heightSize else Pack(cs, Params(widthSize, hSpacing, vSpacing)).flowHeight
    {
      ghost var p := Params(widthSize, hSpacing, vSpacing);
      ClearMeasureParams();
      children := cs;

      var line: seq<nat> := [];
      var lineWidthUsed: nat := 0;
      var lineHeight: nat := 0;
      var flowWidth: nat := 0;
      var flowHeight: nat := 0;

      var i := 0;
      while i < |cs|
        invariant 0 <= i <= |cs|
        invariant children == cs
        invariant PackState(rows, heights, line, lineWidthUsed, lineHeight, flowWidth, flowHeight) ==
                  if i < |cs| then PackOpen(cs, i, p) else Pack(cs, p)
      {
        var child := cs[i];
        if child.visibility != Gone {
          if child.width + lineWidthUsed + hSpacing > widthSize {
            rows := rows + [line];
            heights := heights + [lineHeight];
            flowWidth := Max(flowWidth, lineWidthUsed + hSpacing);
            flowHeight := flowHeight + lineHeight + vSpacing;
            lineHeight := 0;
            lineWidthUsed := 0;
            line := [];
          }
          line := line + [i];
          lineWidthUsed := lineWidthUsed + child.width + hSpacing;
          lineHeight := Max(lineHeight, child.height);
          if i == |cs| - 1 {
            rows := rows + [line];
            heights := heights + [lineHeight];
            flowWidth := Max(flowWidth, lineWidthUsed + hSpacing);
            flowHeight := flowHeight + lineHeight + vSpacing;
          }
        }
        i := i + 1;
      }

      measuredWidth := if widthMode == Exactly then widthSize else flowWidth;
      measuredHeight := if heightMode == Exactly then heightSize else flowHeight;
      PackLockstep(cs, p);
    }

    /**
     * The layout pass: one box per recorded child, row after row. The j-th
     * child of row i gets the box `PlacedBox` describes.
     */
    method Layout(paddingLeft: int, paddingTop: int) returns (boxes: seq<Box>)
      requires Valid()
      ensures Children(boxes) == Flatten(rows)
      ensures forall i, j :: 0 <= i < |rows| && 0 <= j < |rows[i]| ==>
        Slot(rows, i, j) < |boxes| &&
        boxes[Slot(rows, i, j)] == PlacedBox(children, rows, heights, i, j, paddingLeft, paddingTop, hSpacing, vSpacing)
    {
      var currentX := paddingLeft;
      var currentY := paddingTop;
      boxes := [];
      var i := 0;
      while i < |rows|
        invariant 0 <= i <= |rows|
        invariant currentX == paddingLeft
        invariant currentY == TopOf(heights, i, paddingTop, vSpacing)
        invariant Children(boxes) == Flatten(rows[..i])
        invariant forall i' :: 0 <= i' < i ==>
          RowPlaced(children, rows, heights, boxes, i', |rows[i']|, paddingLeft, paddingTop, hSpacing, vSpacing)
      {
        var row := rows[i];
        var j := 0;
        while j < |row|
          invariant 0 <= j <= |row|
          invariant currentY == TopOf(heights, i, paddingTop, vSpacing)
          invariant currentX == LeftOf(children, row, j, paddingLeft, hSpacing)
          invariant Children(boxes) == Flatten(rows[..i]) + row[..j]
          invariant forall i' :: 0 <= i' < i ==>
            RowPlaced(children, rows, heights, boxes, i', |rows[i']|, paddingLeft, paddingTop, hSpacing, vSpacing)
          invariant RowPlaced(children, rows, heights, boxes, i, j, paddingLeft, paddingTop, hSpacing, vSpacing)
        {
          var view := children[row[j]];
          var left := currentX;
          var top := currentY;
          var right := currentX + view.width;
          var bottom := currentY + view.height;
          ghost var before := boxes;
          var b := Box(row[j], left, top, right, bottom);
          boxes := boxes + [b];
          assert b == PlacedBox(children, rows, heights, i, j, paddingLeft, paddingTop, hSpacing, vSpacing);
          LayoutStep(children, rows, heights, before, b, i, j, paddingLeft, paddingTop, hSpacing, vSpacing);
          WidthStep(children, row, j, hSpacing);
          currentX := currentX + view.width + hSpacing;
          j := j + 1;
        }
        HeightStep(heights, i, vSpacing);
        currentY := currentY + heights[i] + vSpacing;
        currentX := paddingLeft;
        assert rows[..i + 1] == rows[..i] + [row];
        FlattenAppend(rows[..i], row);
        assert row[..|row|] == row;
        i := i + 1;
      }
      assert rows[..|rows|] == rows;
    }
  }

  /** What a measure pass leaves for the layout pass and the parent. */
  datatype Measured = Measured(rows: seq<seq<nat>>, heights: seq<nat>, width: nat, height: nat)

  /**
   * Measuring twice with the same inputs leaves the same rows, heights and
   * reported size as measuring once, whatever state the object started in.
   */
  method MeasureIsIdempotent(v: MyFlowLayout, cs: seq<Child>, widthSize: nat, widthMode: MeasureMode, heightSize: nat, heightMode: MeasureMode)
    returns (first: Measured, second: Measured)
    modifies v
    ensures first == second
    ensures second == Measured(v.rows, v.heights, v.measuredWidth, v.measuredHeight)
  {
    v.Measure(cs, widthSize, widthMode, heightSize, heightMode);
    first := Measured(v.rows, v.heights, v.measuredWidth, v.measuredHeight);
    v.Measure(cs, widthSize, widthMode, heightSize, heightMode);
    second := Measured(v.rows, v.heights, v.measuredWidth, v.measuredHeight);
  }
}
