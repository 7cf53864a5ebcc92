# MyFlowLayout row packing, in Dafny

A model of `MyFlowLayout`, an Android `ViewGroup` that lays out its
children left to right and wraps them into rows. It works in two passes.

- The **measure pass** (`onMeasure`) walks the children in order and skips
  the GONE ones. It packs each visible child's measured width into the current
  row. The row is closed when `width + lineWidthUsed + hSpacing > widthSize`.
  Closed rows and their heights are appended to two instance lists, which are
  cleared at the start of every pass. The pass reports either the parent's
  exact size or the computed content size.
- The **layout pass** (`onLayout`) replays the two lists with an X and a Y
  cursor and gives every recorded child a `(left, top, right, bottom)` box.

The model has three files:

- `packing.dfy` (module `Packing`) holds the measure loop as pure functions:
  `Absorb` is one iteration, `PackOpen` is the state after k children, and
  `Pack` is the final state. It also holds reference definitions (row width,
  row height, visible indices, content width and height) and the lemmas that
  connect the loop to them.
- `placement.dfy` (module `Placement`) gives each child's box in closed form.
  It proves that the boxes sit next to each other within a row and stay
  within the padding plus the content size (`flowWidth`, `flowHeight`).
- `flow_layout.dfy` (module `FlowLayoutView`) holds the class `MyFlowLayout`.
  Its fields are the two lists and the measured size. `ClearMeasureParams`,
  `Measure` and `Layout` are imperative methods with the source's loops.
  `Measure` is proved equal to `Pack`; `Layout` is proved equal to the closed
  form.

A child view is an index into the sequence of measured children
(`Child(width, height, visibility)`) given to `Measure`. The object keeps that
sequence, so `Layout` reads the same measured sizes the views hold after
measuring. The measure modes are plain values (`Exactly | AtMost | Unspecified`).
The spacings are naturals fixed at construction.

The model follows the code, including these behaviours:

- The wrap test has no "row is non-empty" guard. If the first visible child
  alone overflows, an empty row of height 0 is recorded before it. This is the
  only way an empty row can arise, and only as row 0 (`PackFirstRowEmpty`).
- The wrap test compares against the raw width size, whatever the width mode.
- The trailing spacing of a row is counted twice in the content width: once in
  `lineWidthUsed` and once more when the row is closed.
- The last row is closed only inside the visibility branch of the child at
  index `count-1`. If that child is GONE, the open row is never recorded and
  its children get no box (`PackDropsOpenRow`).

Two consequences of the last point:

- Appending a GONE child can lower the row count. `TrailingGoneChildDropsRow`
  is a concrete case: one visible child gives one row, and the same child
  followed by a GONE one gives none.
- The visible children of the last open row can end up in no row at all
  (`PackDropsOpenRow`).

## Model

| member | source | states |
|---|---|---|
| `Packing.VisibleIndices` | app/src/main/java/com/example/myflowlayouttest/MyFlowLayout.java:79-87 | the children the loop acts on: every listed index is below k and names a child that is not GONE |
| `Packing.VisibleIndicesIncreasing` | app/src/main/java/com/example/myflowlayouttest/MyFlowLayout.java:79-87 | the loop visits the children in index order, so the listed indices increase strictly and none repeats |
| `Packing.VisibleIndicesComplete` | app/src/main/java/com/example/myflowlayouttest/MyFlowLayout.java:79-87 | every non-GONE child below k is listed |
| `Packing.RowHeightIsMax` | app/src/main/java/com/example/myflowlayouttest/MyFlowLayout.java:118-134 | a row's height is the largest measured height among its children, and 0 for an empty row |
| `Packing.MaxWidthIsMax` | app/src/main/java/com/example/myflowlayouttest/MyFlowLayout.java:114-115 | the content width is the largest row width plus one spacing over the rows, and 0 when no row is recorded |
| `Packing.Record` | app/src/main/java/com/example/myflowlayouttest/MyFlowLayout.java:109-116 | closing the open row appends it to the rows and its height to the heights, sets the content width to the larger of itself and (`lineWidthUsed` + horizontal spacing), and adds (`lineHeight` + vertical spacing) to the content height; the open row itself is left as it is |
| `Packing.Absorb` | app/src/main/java/com/example/myflowlayouttest/MyFlowLayout.java:87-126 | one pass of the loop body: a GONE child leaves the state unchanged; otherwise, when `w + lineWidthUsed + hSpacing > widthSize`, the open row is recorded and reset, then the child is appended and the accumulators grow by its width plus spacing and to its height |
| `Packing.PackOpen` | app/src/main/java/com/example/myflowlayouttest/MyFlowLayout.java:79-126 | the loop state after the first k children, from empty lists and zero accumulators, without the final-row record |
| `Packing.Pack` | app/src/main/java/com/example/myflowlayouttest/MyFlowLayout.java:79-141 | the state the whole loop ends in: the open row is recorded once more only when the child at index count-1 is visible |
| `Packing.PackOpenInvariant` | app/src/main/java/com/example/myflowlayouttest/MyFlowLayout.java:79-141 | after any prefix of the children, the recorded rows plus the open row are the visible children so far; the accumulators equal the open row's width and height; heights, content width and content height match the recorded rows; the wrap rule and the first-row rule hold |
| `Packing.PackLockstep` | app/src/main/java/com/example/myflowlayouttest/MyFlowLayout.java:109-134 | after a measure pass the row list and the height list have equal length, and every recorded index is a child of the pass |
| `Packing.PackRowHeights` | app/src/main/java/com/example/myflowlayouttest/MyFlowLayout.java:109-134 | each recorded height is the tallest child of its row, 0 for an empty row |
| `Packing.PackWrapRule` | app/src/main/java/com/example/myflowlayouttest/MyFlowLayout.java:106-125 | every row with two or more children, and a non-empty row 0, uses at most the width size; each later row starts with the child whose width plus the previous row's width plus the spacing exceeds the width size |
| `Packing.PackFirstRowEmpty` | app/src/main/java/com/example/myflowlayouttest/MyFlowLayout.java:106-123 | only row 0 can be empty, and it is empty exactly when the first visible child's width plus the spacing exceeds the width size |
| `Packing.PackCoverage` | app/src/main/java/com/example/myflowlayouttest/MyFlowLayout.java:79-131 | no GONE child appears in a row; when the last child is visible, the rows laid end to end equal the visible children in order |
| `Packing.PackDropsOpenRow` | app/src/main/java/com/example/myflowlayouttest/MyFlowLayout.java:129-139 | when the last child is GONE, the rows are those recorded before the loop ended; the open row's children follow them among the visible children and are placed in no row |
| `Packing.PackContentSize` | app/src/main/java/com/example/myflowlayouttest/MyFlowLayout.java:113-138 | content height is the sum of (row height + vertical spacing); content width is the largest (row width + horizontal spacing); both are 0 with no rows |
| `Packing.ThreeChildrenTwoRows` | app/src/main/java/com/example/myflowlayouttest/MyFlowLayout.java:106-138 | three children of width 100 in width 250 with spacing 16 give rows [0, 1] and [2], content 248 by 76 |
| `Packing.TrailingGoneChildDropsRow` | app/src/main/java/com/example/myflowlayouttest/MyFlowLayout.java:129-139 | one visible child gives one row; followed by a GONE child it gives none |
| `Placement.RowStartsAtPadding` | app/src/main/java/com/example/myflowlayouttest/MyFlowLayout.java:153-164 | the first child of every non-empty row, a single over-wide child included, starts at the left padding |
| `Placement.RowAdjacency` | app/src/main/java/com/example/myflowlayouttest/MyFlowLayout.java:164-179 | within a row each next child starts one horizontal spacing after the previous right edge; all children of a row share one top |
| `Placement.LayoutWithinContent` | app/src/main/java/com/example/myflowlayouttest/MyFlowLayout.java:151-181 | every box of a measure pass ends at least two horizontal spacings left of, and one vertical spacing above, the padding plus the content size (`flowWidth`, `flowHeight`) |
| `FlowLayoutView.MyFlowLayout.constructor` | app/src/main/java/com/example/myflowlayouttest/MyFlowLayout.java:15-24 | the spacings are set and both lists start empty |
| `FlowLayoutView.MyFlowLayout.ClearMeasureParams` | app/src/main/java/com/example/myflowlayouttest/MyFlowLayout.java:39-42 | both lists become empty; nothing else changes |
| `FlowLayoutView.MyFlowLayout.Measure` | app/src/main/java/com/example/myflowlayouttest/MyFlowLayout.java:45-148 | the lists become the rows and heights of `Pack` for the inputs, whatever they held before; the reported width and height are the parent size in EXACTLY mode, otherwise the content size, with no padding added |
| `FlowLayoutView.MyFlowLayout.Layout` | app/src/main/java/com/example/myflowlayouttest/MyFlowLayout.java:151-181 | one box per recorded child in row order; the j-th child of row i is at left = padding + widths of its predecessors (each plus spacing), top = padding + sum of (height + vertical spacing) of the rows above, sized to its measured size |
| `FlowLayoutView.MeasureIsIdempotent` | app/src/main/java/com/example/myflowlayouttest/MyFlowLayout.java:57-58 | two measure passes with the same inputs leave the same rows, heights and reported size |

## Left out

- Android measure specs: `MeasureSpec.getSize`/`getMode`, `getChildMeasureSpec` and `measure` on each child (lines 47-50, 89-99) are host code. Each child's measured size and visibility, and each measure mode, are plain inputs.
- The padding read in `onMeasure` (lines 73-76) only feeds the child measure specs above, so `Measure` takes no padding. `Layout` takes the left and top padding as integers, since nothing keeps them non-negative; box edges are integers too. Right and bottom padding are unused there.
- `view.layout` (line 170) is not modelled as a call. `Layout` returns the boxes it would pass.
- The `changed, l, t, r, b` arguments of `onLayout` are unused by the source and are not parameters.
- `Log.d` (line 52) has no effect on layout.
- `dp2px` (lines 186-192) converts through floating point and the display metrics. The spacings are given naturals.
- The three constructors (lines 26-36) only forward to the superclass. The model's constructor stands for the field initialisers.
- FlowLayoutView.MyFlowLayout.Measure: sizes are unbounded naturals; Java `int` overflow of the accumulators is not modelled.
- FlowLayoutView.MyFlowLayout.Layout: the X and Y cursors and the box edges (lines 164-167, 173, 177) are unbounded integers; Java `int` overflow of those sums is not modelled.
- INVISIBLE and VISIBLE children are treated alike, as the source does: only GONE is skipped.
