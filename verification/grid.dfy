/** The two-phase grid packer run by each thumbnail's `onload` handler.

    While the first row is open, a thumbnail stays in it as long as the
    table, measured after the tentative insertion, is narrower than the
    container; the first thumbnail that makes it too wide is moved alone to
    a fresh row and the column count `cols` is frozen. From then on rows
    wrap purely by counting cells against `cols`. */
module Grid {

  /** A thumbnail cell: the catalog index it shows and its rendered width. */
  datatype Cell = Cell(index: nat, width: nat)

  type Row = seq<Cell>

  /** The packer's state: the `first_row`, `cols` and `actual_col` fields of
      the gallery, the rows already closed, and the open row `tr`. */
  datatype Layout = Layout(firstRow: bool, cols: nat, actualCol: nat, sealed: seq<Row>, tr: Row)

  /** The state the gallery is constructed with: one empty row. */
  const Initial := Layout(true, 0, 1, [], [])

  /** The rows of the table, top to bottom. */
  function Table(s: Layout): seq<Row>
  {
    s.sealed + [s.tr]
  }

  /** The cells of the rows, read left to right and top to bottom. */
  function Flatten(rows: seq<Row>): seq<Cell>
  {
    if rows == [] then [] else Flatten(rows[..|rows| - 1]) + rows[|rows| - 1]
  }

  lemma FlattenSnoc(rows: seq<Row>, r: Row)
    ensures Flatten(rows + [r]) == Flatten(rows) + r
  {
    assert (rows + [r])[..|rows|] == rows;
  }

  /** The sum of a row's cell widths. */
  function RowWidth(r: Row): nat
  {
    if r == [] then 0 else RowWidth(r[..|r| - 1]) + r[|r| - 1].width
  }

  /** The most cells a row after the first may hold. */
  function RowLimit(cols: nat): nat
  {
    if cols == 0 then 1 else cols
  }

  /** Places one loaded thumbnail. `measured` is the table width after the
      thumbnail has been appended to the open row. */
  function Place(s: Layout, c: Cell, measured: int, containerWidth: int): (r: Layout)
    ensures Flatten(Table(r)) == Flatten(Table(s)) + [c]
    ensures !s.firstRow ==> !r.firstRow && r.cols == s.cols
    ensures s.firstRow ==> (r.firstRow <==> measured < containerWidth)
    ensures s.firstRow ==> r.cols == (if measured < containerWidth then s.cols + 1 else s.cols)
    ensures var newRow := if s.firstRow then measured >= containerWidth else s.actualCol >= s.cols;
      if newRow then r.sealed == s.sealed + [s.tr] && r.tr == [c]
      else r.sealed == s.sealed && r.tr == s.tr + [c]
    ensures !s.firstRow ==> r.actualCol == (if s.actualCol >= s.cols then 1 else s.actualCol + 1)
    ensures s.firstRow ==> r.actualCol == s.actualCol
  {
    FlattenSnoc(s.sealed, s.tr);
    FlattenSnoc(s.sealed, s.tr + [c]);
    FlattenSnoc(s.sealed + [s.tr], [c]);
    if !s.firstRow then
      if s.actualCol >= s.cols then
        s.(sealed := s.sealed + [s.tr], tr := [c], actualCol := 1)
      else
        s.(tr := s.tr + [c], actualCol := s.actualCol + 1)
    else if measured >= containerWidth then
      s.(sealed := s.sealed + [s.tr], tr := [c], firstRow := false)
    else
      s.(tr := s.tr + [c], cols := s.cols + 1)
  }

  /** The table width after tentatively appending `c` to the open row. While
      the first row is open it is the only row, so the table is as wide as
      it; cell padding and borders are not modelled. */
  function TentativeWidth(s: Layout, c: Cell): nat
  {
    RowWidth(s.tr + [c])
  }

  /** The `onload` placement: the thumbnail is measured in the open row and
      placed. */
  function Insert(s: Layout, c: Cell, containerWidth: int): (r: Layout)
    ensures s.firstRow ==> (r.firstRow <==> RowWidth(s.tr) + c.width < containerWidth)
    ensures !s.firstRow ==> !r.firstRow && r.cols == s.cols
  {
    RowWidthSnoc(s.tr, c);
    Place(s, c, TentativeWidth(s, c), containerWidth)
  }

  /** The layout after the cells have been placed one by one, in order. */
  function Pack(cs: seq<Cell>, containerWidth: int): (r: Layout)
    ensures Flatten(Table(r)) == cs
    decreases |cs|
  {
    if cs == [] then Initial
    else
      assert cs == cs[..|cs| - 1] + [cs[|cs| - 1]];
      Insert(Pack(cs[..|cs| - 1], containerWidth), cs[|cs| - 1], containerWidth)
  }

  /** The first `k` cells, and every shorter prefix, are narrower than the
      container. */
  ghost predicate PrefixesFit(cs: seq<Cell>, k: nat, containerWidth: int)
    requires k <= |cs|
  {
    forall j :: 1 <= j <= k ==> RowWidth(cs[..j]) < containerWidth
  }

  /** What is known of the layout after packing `cs`. */
  ghost predicate Shaped(s: Layout, cs: seq<Cell>, containerWidth: int)
  {
    && Flatten(Table(s)) == cs
    && s.cols <= |cs|
    && PrefixesFit(cs, s.cols, containerWidth)
    && (s.firstRow ==> s.sealed == [] && s.tr == cs && s.cols == |cs| && s.actualCol == 1)
    && (!s.firstRow ==>
          && s.cols < |cs|
          && RowWidth(cs[..s.cols + 1]) >= containerWidth
          && |s.sealed| >= 1
          && s.sealed[0] == cs[..s.cols]
          && (forall j :: 1 <= j < |s.sealed| ==> |s.sealed[j]| == RowLimit(s.cols))
          && 1 <= |s.tr| == s.actualCol <= RowLimit(s.cols))
  }

  lemma PrefixesFitExtend(pre: seq<Cell>, c: Cell, k: nat, containerWidth: int)
    requires k <= |pre|
    requires PrefixesFit(pre, k, containerWidth)
    ensures PrefixesFit(pre + [c], k, containerWidth)
  {
    forall j | 1 <= j <= k
      ensures RowWidth((pre + [c])[..j]) < containerWidth
    {
      assert (pre + [c])[..j] == pre[..j];
    }
  }

  /** Inserting while the first row is open keeps the shape. */
  lemma InsertShapedFirstRow(s: Layout, pre: seq<Cell>, c: Cell, containerWidth: int)
    requires Shaped(s, pre, containerWidth) && s.firstRow
    ensures Shaped(Insert(s, c, containerWidth), pre + [c], containerWidth)
  {
    if RowWidth(pre + [c]) < containerWidth {
      FirstRowFits(s, pre, c, containerWidth);
    } else {
      FirstRowOverflows(s, pre, c, containerWidth);
    }
  }

  lemma FirstRowFits(s: Layout, pre: seq<Cell>, c: Cell, containerWidth: int)
    requires Shaped(s, pre, containerWidth) && s.firstRow
    requires RowWidth(pre + [c]) < containerWidth
    ensures Shaped(Insert(s, c, containerWidth), pre + [c], containerWidth)
  {
    var cs := pre + [c];
    assert s == Layout(true, |pre|, 1, [], pre);
    var r := Layout(true, |cs|, 1, [], cs);
    assert Insert(s, c, containerWidth) == r;
    FlattenSnoc([], cs);
    PrefixesFitGrow(pre, c, containerWidth);
  }

  lemma PrefixesFitGrow(pre: seq<Cell>, c: Cell, containerWidth: int)
    requires PrefixesFit(pre, |pre|, containerWidth)
    requires RowWidth(pre + [c]) < containerWidth
    ensures PrefixesFit(pre + [c], |pre| + 1, containerWidth)
  {
    var cs := pre + [c];
    PrefixesFitExtend(pre, c, |pre|, containerWidth);
    assert cs[..|cs|] == cs;
  }

  lemma FirstRowOverflows(s: Layout, pre: seq<Cell>, c: Cell, containerWidth: int)
    requires Shaped(s, pre, containerWidth) && s.firstRow
    requires RowWidth(pre + [c]) >= containerWidth
    ensures Shaped(Insert(s, c, containerWidth), pre + [c], containerWidth)
  {
    assert s == Layout(true, |pre|, 1, [], pre);
    assert Insert(s, c, containerWidth) == Layout(false, |pre|, 1, [pre], [c]);
    PrefixesFitExtend(pre, c, |pre|, containerWidth);
    OverflowShaped(pre, c, containerWidth);
  }

  /** The layout the first overflowing cell leaves: the cells before it as
      the first row, itself alone in the open row. */
  lemma OverflowShaped(pre: seq<Cell>, c: Cell, containerWidth: int)
    requires PrefixesFit(pre + [c], |pre|, containerWidth)
    requires RowWidth(pre + [c]) >= containerWidth
    ensures Shaped(Layout(false, |pre|, 1, [pre], [c]), pre + [c], containerWidth)
  {
    var r, cs := Layout(false, |pre|, 1, [pre], [c]), pre + [c];
    OverflowFlatten(pre, c);
    SnocSlices(pre, c);
    assert RowWidth(cs[..r.cols + 1]) >= containerWidth;
    assert r.sealed[0] == cs[..r.cols];
  }

  lemma SnocSlices<T>(pre: seq<T>, c: T)
    ensures (pre + [c])[..|pre|] == pre
    ensures (pre + [c])[..|pre| + 1] == pre + [c]
  {
  }

  lemma OverflowFlatten(pre: seq<Cell>, c: Cell)
    ensures Flatten(Table(Layout(false, |pre|, 1, [pre], [c]))) == pre + [c]
  {
    FlattenSnoc([], pre);
    FlattenSnoc([pre], [c]);
    assert [pre] == [] + [pre];
    assert Table(Layout(false, |pre|, 1, [pre], [c])) == [pre] + [[c]];
  }

  /** Inserting after the first row has closed keeps the shape. */
  lemma InsertShapedLaterRows(s: Layout, pre: seq<Cell>, c: Cell, containerWidth: int)
    requires Shaped(s, pre, containerWidth) && !s.firstRow
    ensures Shaped(Insert(s, c, containerWidth), pre + [c], containerWidth)
  {
    var cs := pre + [c];
    var r := Insert(s, c, containerWidth);
    PrefixesFitExtend(pre, c, s.cols, containerWidth);
    assert cs[..s.cols + 1] == pre[..s.cols + 1];
    assert cs[..s.cols] == pre[..s.cols];
    if s.actualCol >= s.cols {
      assert |s.tr| == RowLimit(s.cols);
      assert r.sealed == s.sealed + [s.tr];
      assert r.sealed[0] == s.sealed[0];
    } else {
      assert r.sealed == s.sealed;
    }
  }

  lemma {:induction false} PackShaped(cs: seq<Cell>, containerWidth: int)
    ensures Shaped(Pack(cs, containerWidth), cs, containerWidth)
    decreases |cs|
  {
    if cs != [] {
      var pre, c := cs[..|cs| - 1], cs[|cs| - 1];
      assert cs == pre + [c];
      var s := Pack(pre, containerWidth);
      PackShaped(pre, containerWidth);
      assert Pack(cs, containerWidth) == Insert(s, c, containerWidth);
      if s.firstRow {
        InsertShapedFirstRow(s, pre, c, containerWidth);
      } else {
        InsertShapedLaterRows(s, pre, c, containerWidth);
      }
    }
  }

  /** Prefix widths never shrink as the prefix grows. */
  lemma {:induction false} PrefixWidthMonotone(cs: seq<Cell>, i: nat, j: nat)
    requires i <= j <= |cs|
    ensures RowWidth(cs[..i]) <= RowWidth(cs[..j])
    decreases j - i
  {
    if i < j {
      PrefixWidthMonotone(cs, i, j - 1);
      assert cs[..j][..j - 1] == cs[..j - 1];
    }
  }

  /** The first row holds the largest number of leading thumbnails whose
      widths add up to less than the container width; the thumbnail after
      them is the one that breaks the row. */
  lemma FirstRowColumns(cs: seq<Cell>, containerWidth: int)
    ensures var s := Pack(cs, containerWidth);
      && s.cols <= |cs|
      && (forall j :: 1 <= j <= s.cols ==> RowWidth(cs[..j]) < containerWidth)
      && (forall j :: s.cols < j <= |cs| ==> RowWidth(cs[..j]) >= containerWidth)
      && (s.firstRow <==> s.cols == |cs|)
      && Table(s)[0] == cs[..s.cols]
  {
    PackShaped(cs, containerWidth);
    ShapedColumns(Pack(cs, containerWidth), cs, containerWidth);
  }

  lemma ShapedColumns(s: Layout, cs: seq<Cell>, containerWidth: int)
    requires Shaped(s, cs, containerWidth)
    ensures (forall j :: s.cols < j <= |cs| ==> RowWidth(cs[..j]) >= containerWidth)
    ensures s.firstRow <==> s.cols == |cs|
    ensures Table(s)[0] == cs[..s.cols]
  {
    forall j | s.cols < j <= |cs|
      ensures RowWidth(cs[..j]) >= containerWidth
    {
      PrefixWidthMonotone(cs, s.cols + 1, j);
    }
    assert cs[..|cs|] == cs;
  }

  /** After the first row, every row except the last holds exactly
      `max(cols, 1)` thumbnails and the last holds between one and that many;
      when no thumbnail ever overflowed, the table is a single row. */
  lemma LaterRowsFull(cs: seq<Cell>, containerWidth: int)
    ensures var s := Pack(cs, containerWidth); var rows := Table(s);
      && (s.firstRow ==> rows == [cs])
      && (!s.firstRow ==>
            && |rows| >= 2
            && (forall j :: 1 <= j < |rows| - 1 ==> |rows[j]| == RowLimit(s.cols))
            && 1 <= |rows[|rows| - 1]| <= RowLimit(s.cols))
  {
    PackShaped(cs, containerWidth);
  }

  /** Once the first row is closed it stays closed and `cols` never changes,
      however many more thumbnails are placed. */
  lemma {:induction false} ColumnsFrozen(cs: seq<Cell>, more: seq<Cell>, containerWidth: int)
    ensures !Pack(cs, containerWidth).firstRow ==>
      && !Pack(cs + more, containerWidth).firstRow
      && Pack(cs + more, containerWidth).cols == Pack(cs, containerWidth).cols
    decreases |more|
  {
    if more == [] {
      assert cs + more == cs;
    } else {
      FrozenStep(cs, more[0], containerWidth);
      ColumnsFrozen(cs + [more[0]], more[1..], containerWidth);
      AppendCons(cs, more);
    }
  }

  lemma AppendCons<T>(a: seq<T>, b: seq<T>)
    requires b != []
    ensures (a + [b[0]]) + b[1..] == a + b
  {
  }

  lemma FrozenStep(cs: seq<Cell>, c: Cell, containerWidth: int)
    ensures !Pack(cs, containerWidth).firstRow ==>
      && !Pack(cs + [c], containerWidth).firstRow
      && Pack(cs + [c], containerWidth).cols == Pack(cs, containerWidth).cols
  {
    PackSnoc(cs, c, containerWidth);
  }

  lemma {:induction false} FlattenUnitRows(rows: seq<Row>)
    requires forall j :: 0 <= j < |rows| ==> |rows[j]| == 1
    ensures |Flatten(rows)| == |rows|
    ensures forall j :: 0 <= j < |rows| ==> Flatten(rows)[j] == rows[j][0]
    decreases |rows|
  {
    if rows != [] {
      FlattenUnitRows(rows[..|rows| - 1]);
    }
  }

  /** When the very first thumbnail is already too wide, the first row stays
      empty, `cols` stays 0 and every thumbnail gets a row of its own. */
  lemma FirstThumbOverflows(cs: seq<Cell>, containerWidth: int)
    requires |cs| >= 1 && cs[0].width >= containerWidth
    ensures var s := Pack(cs, containerWidth); var rows := Table(s);
      && s.cols == 0
      && |rows| == |cs| + 1
      && rows[0] == []
      && forall j :: 1 <= j < |rows| ==> rows[j] == [cs[j - 1]]
  {
    PackShaped(cs, containerWidth);
    OverflowShape(Pack(cs, containerWidth), cs, containerWidth);
  }

  lemma OverflowShape(s: Layout, cs: seq<Cell>, containerWidth: int)
    requires Shaped(s, cs, containerWidth)
    requires |cs| >= 1 && cs[0].width >= containerWidth
    ensures var rows := Table(s);
      && s.cols == 0
      && |rows| == |cs| + 1
      && rows[0] == []
      && forall j :: 1 <= j < |rows| ==> rows[j] == [cs[j - 1]]
  {
    assert RowWidth(cs[..1]) == cs[0].width by {
      assert cs[..1][..0] == [];
    }
    assert s.cols == 0;
    assert !s.firstRow;
    assert s.sealed[0] == [];
    var rows := Table(s);
    assert forall j :: 1 <= j < |rows| ==> |rows[j]| == 1;
    UnitRowsAfterEmpty(rows, cs);
  }

  lemma UnitRowsAfterEmpty(rows: seq<Row>, cs: seq<Cell>)
    requires |rows| >= 1 && rows[0] == []
    requires forall j :: 1 <= j < |rows| ==> |rows[j]| == 1
    requires Flatten(rows) == cs
    ensures |rows| == |cs| + 1
    ensures forall j :: 1 <= j < |rows| ==> rows[j] == [cs[j - 1]]
  {
    var later := rows[1..];
    assert rows == [rows[0]] + later;
    FlattenUnitRows(later);
    FlattenAppend([rows[0]], later);
    assert Flatten([rows[0]]) == [] by {
      assert [rows[0]] == [] + [rows[0]];
      FlattenSnoc([], rows[0]);
    }
    assert Flatten(later) == cs;
    forall j | 1 <= j < |rows|
      ensures rows[j] == [cs[j - 1]]
    {
      assert later[j - 1] == rows[j];
    }
  }

  lemma {:induction false} FlattenAppend(a: seq<Row>, b: seq<Row>)
    ensures Flatten(a + b) == Flatten(a) + Flatten(b)
    decreases |b|
  {
    if b == [] {
      assert a + b == a;
    } else {
      var front, l := b[..|b| - 1], b[|b| - 1];
      assert b == front + [l];
      assert a + b == (a + front) + [l];
      FlattenAppend(a, front);
      calc {
        Flatten(a + b);
        { FlattenSnoc(a + front, l); }
        Flatten(a + front) + l;
        Flatten(a) + Flatten(front) + l;
        { FlattenSnoc(front, l); }
        Flatten(a) + Flatten(b);
      }
    }
  }

  lemma PackSnoc(cs: seq<Cell>, c: Cell, containerWidth: int)
    ensures Pack(cs + [c], containerWidth) == Insert(Pack(cs, containerWidth), c, containerWidth)
  {
    assert (cs + [c])[..|cs|] == cs;
  }

  lemma RowWidthSnoc(r: Row, c: Cell)
    ensures RowWidth(r + [c]) == RowWidth(r) + c.width
  {
    assert (r + [c])[..|r|] == r;
  }

  /** Thumbnails 200, 300 and 180 wide in a 450-wide container: the second
      overflows and is moved to row two, so `cols` is 1 and the third starts
      row three. */
  lemma ThreeThumbScenario()
    ensures var cs := [Cell(0, 200), Cell(1, 300), Cell(2, 180)];
      var s := Pack(cs, 450);
      s.cols == 1 && Table(s) == [[Cell(0, 200)], [Cell(1, 300)], [Cell(2, 180)]]
  {
    var a, b, c := Cell(0, 200), Cell(1, 300), Cell(2, 180);
    var s1 := Layout(true, 1, 1, [], [a]);
    var s2 := Layout(false, 1, 1, [[a]], [b]);
    var s3 := Layout(false, 1, 1, [[a], [b]], [c]);
    PackSnoc([], a, 450);
    assert [] + [a] == [a];
    ScenarioFirst(a);
    PackSnoc([a], b, 450);
    assert [a] + [b] == [a, b];
    ScenarioSecond(a, b);
    PackSnoc([a, b], c, 450);
    assert [a, b] + [c] == [a, b, c];
    ScenarioThird(a, b, c);
    assert Table(s3) == [[a], [b], [c]];
  }

  lemma ScenarioFirst(a: Cell)
    requires a == Cell(0, 200)
    ensures Insert(Initial, a, 450) == Layout(true, 1, 1, [], [a])
  {
    RowWidthSnoc([], a);
    assert [] + [a] == [a];
  }

  lemma ScenarioSecond(a: Cell, b: Cell)
    requires a == Cell(0, 200) && b == Cell(1, 300)
    ensures Insert(Layout(true, 1, 1, [], [a]), b, 450) == Layout(false, 1, 1, [[a]], [b])
  {
    RowWidthSnoc([], a);
    assert [] + [a] == [a];
    RowWidthSnoc([a], b);
    assert TentativeWidth(Layout(true, 1, 1, [], [a]), b) == 500;
  }

  lemma ScenarioThird(a: Cell, b: Cell, c: Cell)
    ensures Insert(Layout(false, 1, 1, [[a]], [b]), c, 450) == Layout(false, 1, 1, [[a], [b]], [c])
  {
  }
}
