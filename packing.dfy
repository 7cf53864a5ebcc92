/**
 * The row-packing arithmetic of MyFlowLayout's measure pass, as pure functions.
 *
 * A child is given by its measured size and its visibility. `Absorb` is one
 * iteration of the measure loop, `PackOpen` the state after the first k
 * children, and `Pack` the state the measure pass leaves behind: the open row
 * is recorded a last time only when the final child is visible, because the
 * source closes the last row inside its visibility branch.
 *
 * The lemmas at the end state what the packing means, independently of the
 * step function: which rows exist, what their heights are, which children they
 * hold, and how big the content is.
 */
module Packing {

  datatype Visibility = Visible | Invisible | Gone

  /** A child view after the host has measured it. */
  datatype Child = Child(width: nat, height: nat, visibility: Visibility)

  /** The inputs of the packing: the parent's width size and the two spacings. */
  datatype Params = Params(widthSize: nat, hSpacing: nat, vSpacing: nat)

  /**
   * The measure loop's state: the recorded rows and row heights (the two
   * instance lists), the row still being filled with its accumulators, and the
   * content size accumulated so far.
   */
  datatype PackState = PackState(
    rows: seq<seq<nat>>,
    heights: seq<nat>,
    line: seq<nat>,
    lineWidthUsed: nat,
    lineHeight: nat,
    flowWidth: nat,
    flowHeight: nat)

  function Max(a: nat, b: nat): (m: nat) {
    if a < b then b else a
  }

  // ---------------------------------------------------------------------------
  // Reference definitions over rows of child indices

  predicate InRange(cs: seq<Child>, row: seq<nat>) {
    forall j :: 0 <= j < |row| ==> row[j] < |cs|
  }

  predicate RowsInRange(cs: seq<Child>, rows: seq<seq<nat>>) {
    forall r :: 0 <= r < |rows| ==> InRange(cs, rows[r])
  }

  /** The measured width of child i (0 for an index that names no child). */
  function WidthOf(cs: seq<Child>, i: nat): (w: nat) {
    if i < |cs| then cs[i].width else 0
  }

  /** The measured height of child i (0 for an index that names no child). */
  function HeightOf(cs: seq<Child>, i: nat): (h: nat) {
    if i < |cs| then cs[i].height else 0
  }

  /** The width a row uses: every child's width plus one spacing after each. */
  function RowWidth(cs: seq<Child>, row: seq<nat>, hSpacing: nat): (w: nat) {
    if row == [] then 0
    else RowWidth(cs, row[..|row| - 1], hSpacing) + WidthOf(cs, row[|row| - 1]) + hSpacing
  }

  /** The row height the loop accumulates: the running maximum, from 0. */
  function RowHeight(cs: seq<Child>, row: seq<nat>): (h: nat) {
    if row == [] then 0
    else Max(RowHeight(cs, row[..|row| - 1]), HeightOf(cs, row[|row| - 1]))
  }

  /** The rows laid end to end. */
  function Flatten(rows: seq<seq<nat>>): (flat: seq<nat>) {
    if rows == [] then []
    else Flatten(rows[..|rows| - 1]) + rows[|rows| - 1]
  }

  /** The indices below k of the children that are not GONE, in order. */
  function VisibleIndices(cs: seq<Child>, k: nat): (v: seq<nat>)
    requires k <= |cs|
    ensures forall j :: 0 <= j < |v| ==> v[j] < k && cs[v[j]].visibility != Gone
  {
    if k == 0 then []
    else VisibleIndices(cs, k - 1) + (if cs[k - 1].visibility != Gone then [k - 1] else [])
  }

  /** The sum over the rows of (row height + vertical spacing). */
  function SumHeights(heights: seq<nat>, vSpacing: nat): (total: nat) {
    if heights == [] then 0
    else SumHeights(heights[..|heights| - 1], vSpacing) + heights[|heights| - 1] + vSpacing
  }

  /** The running maximum of (row width + horizontal spacing) over the rows, from 0. */
  function MaxWidth(cs: seq<Child>, rows: seq<seq<nat>>, hSpacing: nat): (w: nat) {
    if rows == [] then 0
    else Max(MaxWidth(cs, rows[..|rows| - 1], hSpacing), RowWidth(cs, rows[|rows| - 1], hSpacing) + hSpacing)
  }

  /**
   * A row that gained a child without wrapping still fitted: a row with two
   * or more children, and a non-empty first row, use at most the parent's
   * width size.
   */
  predicate RowFits(cs: seq<Child>, row: seq<nat>, first: bool, p: Params) {
    (|row| >= 2 || (first && row != [])) ==> RowWidth(cs, row, p.hSpacing) <= p.widthSize
  }

  /** A row is started by a child that did not fit after the previous row. */
  predicate WrapsAfter(cs: seq<Child>, prev: seq<nat>, row: seq<nat>, p: Params) {
    row != [] && RowWidth(cs, prev, p.hSpacing) + WidthOf(cs, row[0]) + p.hSpacing > p.widthSize
  }

  predicate RowsFit(cs: seq<Child>, rows: seq<seq<nat>>, p: Params) {
    forall r :: 0 <= r < |rows| ==> RowFits(cs, rows[r], r == 0, p)
  }

  predicate RowsWrap(cs: seq<Child>, rows: seq<seq<nat>>, p: Params) {
    forall r :: 0 < r < |rows| ==> WrapsAfter(cs, rows[r - 1], rows[r], p)
  }

  /** The first visible child alone does not fit in the width size. */
  predicate FirstVisibleOverflows(cs: seq<Child>, k: nat, p: Params)
    requires k <= |cs|
  {
    var v := VisibleIndices(cs, k);
    v != [] && cs[v[0]].width + p.hSpacing > p.widthSize
  }

  predicate LastVisible(cs: seq<Child>) {
    |cs| > 0 && cs[|cs| - 1].visibility != Gone
  }

  // ---------------------------------------------------------------------------
  // The measure loop

  /** Close the open row: record it with its height and grow the content size. */
  function Record(st: PackState, p: Params): (s: PackState) {
    st.(rows := st.rows + [st.line],
        heights := st.heights + [st.lineHeight],
        flowWidth := Max(st.flowWidth, st.lineWidthUsed + p.hSpacing),
        flowHeight := st.flowHeight + st.lineHeight + p.vSpacing)
  }

  /** One iteration of the measure loop, without the final-row record. */
  function Absorb(cs: seq<Child>, i: nat, st: PackState, p: Params): (s: PackState)
    requires i < |cs|
  {
    var c := cs[i];
    if c.visibility == Gone then st
    else
      var s := if c.width + st.lineWidthUsed + p.hSpacing > p.widthSize
               then Record(st, p).(line := [], lineWidthUsed := 0, lineHeight := 0)
               else st;
      s.(line := s.line + [i],
         lineWidthUsed := s.lineWidthUsed + c.width + p.hSpacing,
         lineHeight := Max(s.lineHeight, c.height))
  }

  const Initial := PackState([], [], [], 0, 0, 0, 0)

  /** The loop state after the first k children. */
  function PackOpen(cs: seq<Child>, k: nat, p: Params): (st: PackState)
    requires k <= |cs|
  {
    if k == 0 then Initial else Absorb(cs, k - 1, PackOpen(cs, k - 1, p), p)
  }

  /** The state the measure pass ends in. */
  function Pack(cs: seq<Child>, p: Params): (st: PackState) {
    var st := PackOpen(cs, |cs|, p);
    if LastVisible(cs) then Record(st, p) else st
  }

  // ---------------------------------------------------------------------------
  // Facts about the reference definitions

  predicate Increasing(v: seq<nat>) {
    forall a, b :: 0 <= a < b < |v| ==> v[a] < v[b]
  }

  /** VisibleIndices lists the non-GONE indices below k in increasing order, so each once. */
  lemma {:induction false} VisibleIndicesIncreasing(cs: seq<Child>, k: nat)
    requires k <= |cs|
    ensures Increasing(VisibleIndices(cs, k))
  {
    if k > 0 {
      var front, v := VisibleIndices(cs, k - 1), VisibleIndices(cs, k);
      VisibleIndicesIncreasing(cs, k - 1);
      forall a, b | 0 <= a < b < |v|
        ensures v[a] < v[b]
      {
        assert v[a] == front[a];
        if b < |front| {
          assert v[b] == front[b];
        } else {
          assert v[b] == k - 1;
        }
      }
    }
  }

  /** Every non-GONE index below k is listed by VisibleIndices. */
  lemma {:induction false} VisibleIndicesComplete(cs: seq<Child>, k: nat)
    requires k <= |cs|
    ensures forall i :: 0 <= i < k && cs[i].visibility != Gone ==> i in VisibleIndices(cs, k)
  {
    if k > 0 {
      var front := VisibleIndices(cs, k - 1);
      VisibleIndicesComplete(cs, k - 1);
      assert forall i :: i in front ==> i in VisibleIndices(cs, k);
    }
  }

  /** h is the height of the tallest child of the row, and 0 for an empty row. */
  predicate IsTallest(cs: seq<Child>, row: seq<nat>, h: nat) {
    && (forall j :: 0 <= j < |row| ==> HeightOf(cs, row[j]) <= h)
    && (row == [] ==> h == 0)
    && (row != [] ==> exists j :: 0 <= j < |row| && HeightOf(cs, row[j]) == h)
  }

  /** A row's height is the tallest of its children, 0 for an empty row. */
  lemma {:induction false} RowHeightIsMax(cs: seq<Child>, row: seq<nat>)
    ensures IsTallest(cs, row, RowHeight(cs, row))
  {
    if row != [] {
      var front := row[..|row| - 1];
      RowHeightIsMax(cs, front);
      assert forall j :: 0 <= j < |front| ==> front[j] == row[j];
    }
  }

  /** The content width is the widest (row width + spacing), 0 for no rows. */
  lemma {:induction false} MaxWidthIsMax(cs: seq<Child>, rows: seq<seq<nat>>, hSpacing: nat)
    ensures forall r :: 0 <= r < |rows| ==> RowWidth(cs, rows[r], hSpacing) + hSpacing <= MaxWidth(cs, rows, hSpacing)
    ensures rows == [] ==> MaxWidth(cs, rows, hSpacing) == 0
    ensures rows != [] ==> exists r :: 0 <= r < |rows| && RowWidth(cs, rows[r], hSpacing) + hSpacing == MaxWidth(cs, rows, hSpacing)
  {
    if rows != [] {
      var front := rows[..|rows| - 1];
      MaxWidthIsMax(cs, front, hSpacing);
      assert forall r :: 0 <= r < |front| ==> front[r] == rows[r];
    }
  }

  lemma FlattenAppend(rows: seq<seq<nat>>, row: seq<nat>)
    ensures Flatten(rows + [row]) == Flatten(rows) + row
  {
    assert (rows + [row])[..|rows|] == rows;
  }

  lemma RowWidthAppend(cs: seq<Child>, row: seq<nat>, i: nat, hSpacing: nat)
    ensures RowWidth(cs, row + [i], hSpacing) == RowWidth(cs, row, hSpacing) + WidthOf(cs, i) + hSpacing
  {
    assert (row + [i])[..|row|] == row;
  }

  lemma RowHeightAppend(cs: seq<Child>, row: seq<nat>, i: nat)
    ensures RowHeight(cs, row + [i]) == Max(RowHeight(cs, row), HeightOf(cs, i))
  {
    assert (row + [i])[..|row|] == row;
  }

  lemma MaxWidthAppend(cs: seq<Child>, rows: seq<seq<nat>>, row: seq<nat>, hSpacing: nat)
    ensures MaxWidth(cs, rows + [row], hSpacing) == Max(MaxWidth(cs, rows, hSpacing), RowWidth(cs, row, hSpacing) + hSpacing)
  {
    assert (rows + [row])[..|rows|] == rows;
  }

  lemma SumHeightsAppend(heights: seq<nat>, h: nat, vSpacing: nat)
    ensures SumHeights(heights + [h], vSpacing) == SumHeights(heights, vSpacing) + h + vSpacing
  {
    assert (heights + [h])[..|heights|] == heights;
  }

  /** A row uses at least its first child's width plus one spacing. */
  lemma {:induction false} RowWidthCoversFirst(cs: seq<Child>, row: seq<nat>, hSpacing: nat)
    requires row != []
    ensures RowWidth(cs, row, hSpacing) >= WidthOf(cs, row[0]) + hSpacing
  {
    if |row| > 1 {
      var front := row[..|row| - 1];
      assert front[0] == row[0];
      RowWidthCoversFirst(cs, front, hSpacing);
    }
  }

  /** A prefix of a row uses no more width than the whole row. */
  lemma {:induction false} RowWidthPrefix(cs: seq<Child>, row: seq<nat>, j: nat, hSpacing: nat)
    requires j <= |row|
    ensures RowWidth(cs, row[..j], hSpacing) <= RowWidth(cs, row, hSpacing)
  {
    if j < |row| {
      var front := row[..|row| - 1];
      assert front[..j] == row[..j];
      RowWidthPrefix(cs, front, j, hSpacing);
    } else {
      assert row[..j] == row;
    }
  }

  /** A prefix of the heights sums to no more than all of them. */
  lemma {:induction false} SumHeightsPrefix(heights: seq<nat>, i: nat, vSpacing: nat)
    requires i <= |heights|
    ensures SumHeights(heights[..i], vSpacing) <= SumHeights(heights, vSpacing)
  {
    if i < |heights| {
      var front := heights[..|heights| - 1];
      assert front[..i] == heights[..i];
      SumHeightsPrefix(front, i, vSpacing);
    } else {
      assert heights[..i] == heights;
    }
  }

  /** Every child of every row occurs in the flattened rows. */
  lemma {:induction false} FlattenContains(rows: seq<seq<nat>>, r: nat, j: nat)
    requires r < |rows| && j < |rows[r]|
    ensures rows[r][j] in Flatten(rows)
  {
    var front := rows[..|rows| - 1];
    if r < |rows| - 1 {
      assert front[r] == rows[r];
      FlattenContains(front, r, j);
    }
  }

  // ---------------------------------------------------------------------------
  // The loop invariant, in four parts

  /** The recorded rows laid end to end, then the open row, are the visible children so far. */
  predicate ShapeInv(cs: seq<Child>, k: nat, st: PackState)
    requires k <= |cs|
  {
    && Flatten(st.rows) + st.line == VisibleIndices(cs, k)
    && (VisibleIndices(cs, k) != [] ==> st.line != [])
  }

  /** Recorded rows and heights agree, and the content size is that of the recorded rows. */
  predicate RecordedSizes(cs: seq<Child>, rows: seq<seq<nat>>, heights: seq<nat>, flowWidth: nat, flowHeight: nat, p: Params) {
    && |rows| == |heights|
    && (forall r :: 0 <= r < |rows| ==> heights[r] == RowHeight(cs, rows[r]))
    && flowWidth == MaxWidth(cs, rows, p.hSpacing)
    && flowHeight == SumHeights(heights, p.vSpacing)
  }

  /** The accumulators of the open row and of the content size. */
  predicate SizeInv(cs: seq<Child>, st: PackState, p: Params) {
    && RecordedSizes(cs, st.rows, st.heights, st.flowWidth, st.flowHeight, p)
    && st.lineWidthUsed == RowWidth(cs, st.line, p.hSpacing)
    && st.lineHeight == RowHeight(cs, st.line)
  }

  /** The wrap rule, for the recorded rows followed by the open row. */
  predicate WrapInv(cs: seq<Child>, st: PackState, p: Params) {
    var all := st.rows + [st.line];
    RowsFit(cs, all, p) && RowsWrap(cs, all, p)
  }

  /** Row 0 is recorded empty exactly when the first visible child overflowed. */
  predicate FirstInv(cs: seq<Child>, k: nat, st: PackState, p: Params)
    requires k <= |cs|
  {
    (st.rows != [] && st.rows[0] == []) <==> FirstVisibleOverflows(cs, k, p)
  }

  predicate OpenInv(cs: seq<Child>, k: nat, st: PackState, p: Params)
    requires k <= |cs|
  {
    ShapeInv(cs, k, st) && SizeInv(cs, st, p) && WrapInv(cs, st, p) && FirstInv(cs, k, st, p)
  }

  /** Recording the open row keeps the recorded sizes consistent. */
  lemma RecordSizes(cs: seq<Child>, st: PackState, p: Params)
    requires SizeInv(cs, st, p)
    ensures var s := Record(st, p); RecordedSizes(cs, s.rows, s.heights, s.flowWidth, s.flowHeight, p)
  {
    var s := Record(st, p);
    MaxWidthAppend(cs, st.rows, st.line, p.hSpacing);
    SumHeightsAppend(st.heights, st.lineHeight, p.vSpacing);
    forall r | 0 <= r < |s.rows|
      ensures s.heights[r] == RowHeight(cs, s.rows[r])
    {
      if r < |st.rows| {
        assert s.rows[r] == st.rows[r] && s.heights[r] == st.heights[r];
      }
    }
  }

  lemma ShapeAbsorb(cs: seq<Child>, k: nat, st: PackState, p: Params)
    requires 0 < k <= |cs| && ShapeInv(cs, k - 1, st)
    ensures ShapeInv(cs, k, Absorb(cs, k - 1, st, p))
  {
    var v := VisibleIndices(cs, k - 1);
    if cs[k - 1].visibility == Gone {
      assert VisibleIndices(cs, k) == v;
    } else {
      var s := Absorb(cs, k - 1, st, p);
      assert VisibleIndices(cs, k) == v + [k - 1];
      if cs[k - 1].width + st.lineWidthUsed + p.hSpacing > p.widthSize {
        assert s.rows == st.rows + [st.line] && s.line == [k - 1];
        FlattenAppend(st.rows, st.line);
      } else {
        assert s.rows == st.rows && s.line == st.line + [k - 1];
      }
    }
  }

  /** An iteration on a visible child that does not fit: the open row is recorded and a new one started. */
  lemma AbsorbWrapping(cs: seq<Child>, i: nat, st: PackState, p: Params)
    requires i < |cs| && cs[i].visibility != Gone
    requires cs[i].width + st.lineWidthUsed + p.hSpacing > p.widthSize
    ensures Absorb(cs, i, st, p) ==
      PackState(st.rows + [st.line], st.heights + [st.lineHeight], [i], cs[i].width + p.hSpacing, cs[i].height,
                Max(st.flowWidth, st.lineWidthUsed + p.hSpacing), st.flowHeight + st.lineHeight + p.vSpacing)
  {
    assert [] + [i] == [i];
  }

  /** An iteration on a GONE child changes nothing. */
  lemma AbsorbGone(cs: seq<Child>, i: nat, st: PackState, p: Params)
    requires i < |cs| && cs[i].visibility == Gone
    ensures Absorb(cs, i, st, p) == st
  {
  }

  /** An iteration on a visible child that fits: it joins the open row. */
  lemma AbsorbFitting(cs: seq<Child>, i: nat, st: PackState, p: Params)
    requires i < |cs| && cs[i].visibility != Gone
    requires !(cs[i].width + st.lineWidthUsed + p.hSpacing > p.widthSize)
    ensures Absorb(cs, i, st, p) ==
      st.(line := st.line + [i], lineWidthUsed := st.lineWidthUsed + cs[i].width + p.hSpacing,
          lineHeight := Max(st.lineHeight, cs[i].height))
  {
  }

  lemma SizeAbsorb(cs: seq<Child>, k: nat, st: PackState, p: Params)
    requires 0 < k <= |cs| && SizeInv(cs, st, p)
    ensures SizeInv(cs, Absorb(cs, k - 1, st, p), p)
  {
    var c, s := cs[k - 1], Absorb(cs, k - 1, st, p);
    if c.visibility != Gone {
      assert WidthOf(cs, k - 1) == c.width && HeightOf(cs, k - 1) == c.height;
      if c.width + st.lineWidthUsed + p.hSpacing > p.widthSize {
        AbsorbWrapping(cs, k - 1, st, p);
        var r := Record(st, p);
        RecordSizes(cs, st, p);
        assert (s.rows, s.heights, s.flowWidth, s.flowHeight) == (r.rows, r.heights, r.flowWidth, r.flowHeight);
        RowWidthAppend(cs, [], k - 1, p.hSpacing);
        RowHeightAppend(cs, [], k - 1);
        assert s.line == [] + [k - 1];
      } else {
        AbsorbFitting(cs, k - 1, st, p);
        assert (s.rows, s.heights, s.flowWidth, s.flowHeight) == (st.rows, st.heights, st.flowWidth, st.flowHeight);
        RowWidthAppend(cs, st.line, k - 1, p.hSpacing);
        RowHeightAppend(cs, st.line, k - 1);
        assert s.line == st.line + [k - 1];
      }
    }
  }

  /** A child that fits joins the open row without breaking the wrap rule. */
  lemma WrapExtendLine(cs: seq<Child>, rows: seq<seq<nat>>, line: seq<nat>, i: nat, p: Params)
    requires RowsFit(cs, rows + [line], p) && RowsWrap(cs, rows + [line], p)
    requires RowWidth(cs, line, p.hSpacing) + WidthOf(cs, i) + p.hSpacing <= p.widthSize
    ensures RowsFit(cs, rows + [line + [i]], p) && RowsWrap(cs, rows + [line + [i]], p)
  {
    RowWidthAppend(cs, line, i, p.hSpacing);
    var all, all' := rows + [line], rows + [line + [i]];
    forall r | 0 <= r < |all'|
      ensures RowFits(cs, all'[r], r == 0, p)
    {
      if r < |rows| { assert all'[r] == all[r]; }
    }
    forall r | 0 < r < |all'|
      ensures WrapsAfter(cs, all'[r - 1], all'[r], p)
    {
      assert all'[r - 1] == all[r - 1];
      if r < |rows| {
        assert all'[r] == all[r];
      } else {
        assert all[r] == line != [];
        assert all'[r][0] == line[0];
      }
    }
  }

  /** A child that does not fit closes the open row and starts a new one, keeping the wrap rule. */
  lemma WrapNewLine(cs: seq<Child>, rows: seq<seq<nat>>, line: seq<nat>, i: nat, p: Params)
    requires RowsFit(cs, rows + [line], p) && RowsWrap(cs, rows + [line], p)
    requires RowWidth(cs, line, p.hSpacing) + WidthOf(cs, i) + p.hSpacing > p.widthSize
    ensures RowsFit(cs, (rows + [line]) + [[i]], p) && RowsWrap(cs, (rows + [line]) + [[i]], p)
  {
    var all := rows + [line];
    var all' := all + [[i]];
    forall r | 0 <= r < |all'|
      ensures RowFits(cs, all'[r], r == 0, p)
    {
      if r < |all| { assert all'[r] == all[r]; }
    }
    forall r | 0 < r < |all'|
      ensures WrapsAfter(cs, all'[r - 1], all'[r], p)
    {
      assert all'[r - 1] == all[r - 1];
      if r < |all| { assert all'[r] == all[r]; }
    }
  }

  lemma WrapAbsorb(cs: seq<Child>, k: nat, st: PackState, p: Params)
    requires 0 < k <= |cs| && WrapInv(cs, st, p)
    requires st.lineWidthUsed == RowWidth(cs, st.line, p.hSpacing)
    ensures WrapInv(cs, Absorb(cs, k - 1, st, p), p)
  {
    var i := k - 1;
    if cs[i].visibility == Gone {
      AbsorbGone(cs, i, st, p);
    } else if cs[i].width + st.lineWidthUsed + p.hSpacing > p.widthSize {
      WrapAbsorbWrap(cs, i, st, p);
    } else {
      WrapAbsorbFit(cs, i, st, p);
    }
  }

  lemma WrapAbsorbWrap(cs: seq<Child>, i: nat, st: PackState, p: Params)
    requires i < |cs| && cs[i].visibility != Gone
    requires cs[i].width + st.lineWidthUsed + p.hSpacing > p.widthSize
    requires WrapInv(cs, st, p)
    requires st.lineWidthUsed == RowWidth(cs, st.line, p.hSpacing)
    ensures WrapInv(cs, Absorb(cs, i, st, p), p)
  {
    var s := Absorb(cs, i, st, p);
    AbsorbWrapping(cs, i, st, p);
    assert s.rows + [s.line] == (st.rows + [st.line]) + [[i]];
    assert WidthOf(cs, i) == cs[i].width;
    WrapNewLine(cs, st.rows, st.line, i, p);
  }

  lemma WrapAbsorbFit(cs: seq<Child>, i: nat, st: PackState, p: Params)
    requires i < |cs| && cs[i].visibility != Gone
    requires !(cs[i].width + st.lineWidthUsed + p.hSpacing > p.widthSize)
    requires WrapInv(cs, st, p)
    requires st.lineWidthUsed == RowWidth(cs, st.line, p.hSpacing)
    ensures WrapInv(cs, Absorb(cs, i, st, p), p)
  {
    var s := Absorb(cs, i, st, p);
    AbsorbFitting(cs, i, st, p);
    assert s.rows + [s.line] == st.rows + [st.line + [i]];
    assert WidthOf(cs, i) == cs[i].width;
    WrapExtendLine(cs, st.rows, st.line, i, p);
  }

  /** What the first-row argument needs of the wrap rule. */
  lemma WrapFirstFacts(cs: seq<Child>, st: PackState, p: Params)
    requires WrapInv(cs, st, p)
    ensures st.rows != [] ==> st.line != []
    ensures st.rows == [] && st.line != [] ==> RowWidth(cs, st.line, p.hSpacing) <= p.widthSize
  {
    var all := st.rows + [st.line];
    assert all[|st.rows|] == st.line;
    if st.rows != [] {
      assert WrapsAfter(cs, all[|st.rows| - 1], all[|st.rows|], p);
    }
  }

  lemma FirstAbsorb(cs: seq<Child>, k: nat, st: PackState, p: Params)
    requires 0 < k <= |cs| && FirstInv(cs, k - 1, st, p)
    requires Flatten(st.rows) + st.line == VisibleIndices(cs, k - 1)
    requires st.lineWidthUsed == RowWidth(cs, st.line, p.hSpacing)
    requires st.rows != [] ==> st.line != []
    requires st.rows == [] && st.line != [] ==> RowWidth(cs, st.line, p.hSpacing) <= p.widthSize
    ensures FirstInv(cs, k, Absorb(cs, k - 1, st, p), p)
  {
    var v := VisibleIndices(cs, k - 1);
    if cs[k - 1].visibility == Gone {
      assert VisibleIndices(cs, k) == v;
    } else {
      var s := Absorb(cs, k - 1, st, p);
      assert VisibleIndices(cs, k) == v + [k - 1];
      if v == [] {
        // The first visible child: nothing is recorded yet and the open row is empty.
        assert st.line == [] && st.rows == [];
        assert VisibleIndices(cs, k) == [k - 1];
      } else {
        assert VisibleIndices(cs, k)[0] == v[0];
        if st.rows == [] {
          assert st.line == v;
          RowWidthCoversFirst(cs, st.line, p.hSpacing);
          assert WidthOf(cs, v[0]) == cs[v[0]].width;
        } else {
          assert s.rows[0] == st.rows[0];
        }
      }
    }
  }

  lemma AbsorbPreserves(cs: seq<Child>, k: nat, st: PackState, p: Params)
    requires 0 < k <= |cs| && OpenInv(cs, k - 1, st, p)
    ensures OpenInv(cs, k, Absorb(cs, k - 1, st, p), p)
  {
    ShapeAbsorb(cs, k, st, p);
    SizeAbsorb(cs, k, st, p);
    WrapAbsorb(cs, k, st, p);
    WrapFirstFacts(cs, st, p);
    FirstAbsorb(cs, k, st, p);
  }

  lemma InitialInv(cs: seq<Child>, p: Params)
    ensures OpenInv(cs, 0, Initial, p)
  {
    assert Flatten([]) == [];
    assert VisibleIndices(cs, 0) == [];
    assert Initial.rows + [Initial.line] == [[]];
  }

  /** The loop invariant holds after every prefix of the children. */
  lemma {:induction false} PackOpenInvariant(cs: seq<Child>, k: nat, p: Params)
    requires k <= |cs|
    ensures OpenInv(cs, k, PackOpen(cs, k, p), p)
  {
    if k == 0 {
      InitialInv(cs, p);
    } else {
      PackOpenInvariant(cs, k - 1, p);
      AbsorbPreserves(cs, k, PackOpen(cs, k - 1, p), p);
    }
  }

  // ---------------------------------------------------------------------------
  // Properties of a whole measure pass

  /** The recorded rows laid end to end are a prefix of the visible children. */
  lemma {:induction false} PackFlattenPrefix(cs: seq<Child>, p: Params)
    ensures var st := Pack(cs, p);
      Flatten(st.rows) <= VisibleIndices(cs, |cs|) &&
      (LastVisible(cs) ==> Flatten(st.rows) == VisibleIndices(cs, |cs|))
  {
    var o := PackOpen(cs, |cs|, p);
    PackOpenInvariant(cs, |cs|, p);
    assert ShapeInv(cs, |cs|, o);
    if LastVisible(cs) {
      FlattenAppend(o.rows, o.line);
    }
  }

  /** Rows laid end to end that are a prefix of the visible children hold only visible children. */
  lemma PrefixOfVisibleNotGone(cs: seq<Child>, rows: seq<seq<nat>>)
    requires Flatten(rows) <= VisibleIndices(cs, |cs|)
    ensures forall r, j :: 0 <= r < |rows| && 0 <= j < |rows[r]| ==> rows[r][j] < |cs| && cs[rows[r][j]].visibility != Gone
  {
    var v := VisibleIndices(cs, |cs|);
    forall r, j | 0 <= r < |rows| && 0 <= j < |rows[r]|
      ensures rows[r][j] < |cs| && cs[rows[r][j]].visibility != Gone
    {
      FlattenContains(rows, r, j);
      var n :| 0 <= n < |Flatten(rows)| && Flatten(rows)[n] == rows[r][j];
      assert v[n] == rows[r][j];
    }
  }

  /**
   * Rows and row heights are recorded in pairs, so the two lists always have
   * the same length, and every recorded child index is a child of the pass.
   */
  lemma {:induction false} PackLockstep(cs: seq<Child>, p: Params)
    ensures |Pack(cs, p).rows| == |Pack(cs, p).heights|
    ensures RowsInRange(cs, Pack(cs, p).rows)
  {
    PackOpenInvariant(cs, |cs|, p);
    if LastVisible(cs) {
      RecordSizes(cs, PackOpen(cs, |cs|, p), p);
    }
    PackFlattenPrefix(cs, p);
    PrefixOfVisibleNotGone(cs, Pack(cs, p).rows);
  }

  /** Each recorded height is the tallest child of its row, 0 for an empty row. */
  lemma {:induction false} PackRowHeights(cs: seq<Child>, p: Params)
    ensures var st := Pack(cs, p);
      |st.heights| == |st.rows| &&
      forall r :: 0 <= r < |st.rows| ==> st.heights[r] == RowHeight(cs, st.rows[r]) && IsTallest(cs, st.rows[r], st.heights[r])
  {
    PackOpenInvariant(cs, |cs|, p);
    if LastVisible(cs) {
      RecordSizes(cs, PackOpen(cs, |cs|, p), p);
    }
    var st := Pack(cs, p);
    forall r | 0 <= r < |st.rows|
      ensures st.heights[r] == RowHeight(cs, st.rows[r]) && IsTallest(cs, st.rows[r], st.heights[r])
    {
      RowHeightIsMax(cs, st.rows[r]);
    }
  }

  /**
   * The wrap rule: a child joined its row only if the row then still fitted in
   * the width size, and each later row begins with the child that did not fit
   * after the previous row.
   */
  lemma {:induction false} PackWrapRule(cs: seq<Child>, p: Params)
    ensures var st := Pack(cs, p);
      RowsFit(cs, st.rows, p) && RowsWrap(cs, st.rows, p)
  {
    var o := PackOpen(cs, |cs|, p);
    PackOpenInvariant(cs, |cs|, p);
    var all := o.rows + [o.line];
    assert WrapInv(cs, o, p);
    if !LastVisible(cs) {
      assert forall r :: 0 <= r < |o.rows| ==> o.rows[r] == all[r];
    }
  }

  /**
   * An empty row can only be row 0, and row 0 is empty exactly when the first
   * visible child alone overflows the width size (no "row is non-empty" guard).
   */
  lemma {:induction false} PackFirstRowEmpty(cs: seq<Child>, p: Params)
    ensures var st := Pack(cs, p);
      (forall r :: 0 < r < |st.rows| ==> st.rows[r] != []) &&
      ((st.rows != [] && st.rows[0] == []) <==> FirstVisibleOverflows(cs, |cs|, p))
  {
    PackWrapRule(cs, p);
    var o := PackOpen(cs, |cs|, p);
    PackOpenInvariant(cs, |cs|, p);
    var st := Pack(cs, p);
    forall r | 0 < r < |st.rows|
      ensures st.rows[r] != []
    {
      assert WrapsAfter(cs, st.rows[r - 1], st.rows[r], p);
    }
    assert FirstInv(cs, |cs|, o, p) && ShapeInv(cs, |cs|, o);
    if LastVisible(cs) {
      assert VisibleIndices(cs, |cs|) != [];
      assert o.line != [];
      if o.rows != [] {
        assert st.rows[0] == o.rows[0];
      } else {
        assert st.rows == [o.line];
      }
    }
  }

  /**
   * GONE children are never placed in a row, and when the last child is
   * visible the rows laid end to end are exactly the visible children in order.
   */
  lemma {:induction false} PackCoverage(cs: seq<Child>, p: Params)
    ensures var st := Pack(cs, p);
      RowsInRange(cs, st.rows) &&
      (forall r, j :: 0 <= r < |st.rows| && 0 <= j < |st.rows[r]| ==> cs[st.rows[r][j]].visibility != Gone) &&
      (LastVisible(cs) ==> Flatten(st.rows) == VisibleIndices(cs, |cs|))
  {
    PackFlattenPrefix(cs, p);
    PrefixOfVisibleNotGone(cs, Pack(cs, p).rows);
  }

  /**
   * When the last child is GONE the row still open at the end of the loop is
   * never recorded: its children, the last visible ones, get no row.
   */
  lemma {:induction false} PackDropsOpenRow(cs: seq<Child>, p: Params)
    requires |cs| > 0 && cs[|cs| - 1].visibility == Gone
    ensures var o, st := PackOpen(cs, |cs|, p), Pack(cs, p);
      st.rows == o.rows &&
      Flatten(st.rows) + o.line == VisibleIndices(cs, |cs|) &&
      (VisibleIndices(cs, |cs|) != [] ==> |Flatten(st.rows)| < |VisibleIndices(cs, |cs|)|)
  {
    PackOpenInvariant(cs, |cs|, p);
    assert ShapeInv(cs, |cs|, PackOpen(cs, |cs|, p));
  }

  /**
   * The content size: the height sums (row height + vertical spacing) over the
   * recorded rows, the width is the largest (row width + horizontal spacing),
   * so the trailing spacing of a row is counted twice; both are 0 without rows.
   */
  lemma {:induction false} PackContentSize(cs: seq<Child>, p: Params)
    ensures var st := Pack(cs, p);
      st.flowWidth == MaxWidth(cs, st.rows, p.hSpacing) &&
      st.flowHeight == SumHeights(st.heights, p.vSpacing) &&
      (forall r :: 0 <= r < |st.rows| ==> RowWidth(cs, st.rows[r], p.hSpacing) + p.hSpacing <= st.flowWidth) &&
      (st.rows != [] ==> exists r :: 0 <= r < |st.rows| && RowWidth(cs, st.rows[r], p.hSpacing) + p.hSpacing == st.flowWidth) &&
      (st.rows == [] ==> st.flowWidth == 0 && st.flowHeight == 0)
  {
    PackOpenInvariant(cs, |cs|, p);
    if LastVisible(cs) {
      RecordSizes(cs, PackOpen(cs, |cs|, p), p);
    }
    var st := Pack(cs, p);
    MaxWidthIsMax(cs, st.rows, p.hSpacing);
    assert |st.heights| == |st.rows|;
  }

  // ---------------------------------------------------------------------------
  // Concrete passes

  /** Three children of width 100 in a width of 250 with spacing 16 pack as [0, 1] and [2]. */
  lemma ThreeChildrenTwoRows()
    ensures var cs := [Child(100, 40, Visible), Child(100, 30, Visible), Child(100, 20, Visible)];
      var st := Pack(cs, Params(250, 16, 8));
      st.rows == [[0, 1], [2]] && st.heights == [40, 20] &&
      st.flowWidth == 248 && st.flowHeight == 76
  {
    var cs := [Child(100, 40, Visible), Child(100, 30, Visible), Child(100, 20, Visible)];
    var p := Params(250, 16, 8);
    assert PackOpen(cs, 1, p) == PackState([], [], [0], 116, 40, 0, 0);
    assert PackOpen(cs, 2, p) == PackState([], [], [0, 1], 232, 40, 0, 0);
    assert PackOpen(cs, 3, p) == PackState([[0, 1]], [40], [2], 116, 20, 248, 48);
  }

  /**
   * Appending a GONE child can make rows disappear: one visible child gives
   * one row, the same child followed by a GONE one gives none.
   */
  lemma TrailingGoneChildDropsRow()
    ensures Pack([Child(10, 10, Visible)], Params(100, 16, 8)).rows == [[0]]
    ensures Pack([Child(10, 10, Visible), Child(10, 10, Gone)], Params(100, 16, 8)).rows == []
  {
    var p := Params(100, 16, 8);
    var one, two := [Child(10, 10, Visible)], [Child(10, 10, Visible), Child(10, 10, Gone)];
    assert PackOpen(one, 1, p) == PackState([], [], [0], 26, 10, 0, 0);
    assert PackOpen(two, 1, p) == PackState([], [], [0], 26, 10, 0, 0);
    assert PackOpen(two, 2, p) == PackOpen(two, 1, p);
  }
}
