/**
 What one paint pass of the segmentation overlay does, as values: the cells
 of a height-by-width grid of class indices are visited row by row, and each
 is filled with the colour the memo table gives its class, the table growing
 as it goes.
 */
module SegmentationPaint {
  import opened SegmentationColors

  /** The model output: `height` rows of `width` class indices each. */
  datatype Grid = Grid(height: nat, width: nat, cells: seq<seq<int32>>) {
    predicate Valid() {
      && |cells| == height
      && forall j :: 0 <= j < |cells| ==> |cells[j]| == width
    }
  }

  /** A grid whose dimensions agree with its declared width and height. */
  type SegmentationMap = g: Grid | g.Valid() witness Grid(0, 0, [])

  /** One filled cell: row `row`, column `column`, painted with `color`. */
  datatype Fill = Fill(row: nat, column: nat, color: Color)

  type PaintResult = (seq<Fill>, Table)

  /** The fills of the first `i` cells of row `j`, starting from table `t`,
      and the table afterwards. */
  function PaintRow(g: SegmentationMap, j: nat, i: nat, t: Table): (r: PaintResult)
    requires j < g.height && i <= g.width
    // every fill lies in row `j`, among its first `i` columns
    ensures forall k :: 0 <= k < |r.0| ==> r.0[k].row == j && r.0[k].column < i
  {
    if i == 0 then
      ([], t)
    else
      var prev := PaintRow(g, j, i - 1, t);
      var hit := Lookup(prev.1, g.cells[j][i - 1]);
      (prev.0 + [Fill(j, i - 1, hit.0)], hit.1)
  }

  /** The fills of the first `j` rows, starting from table `t`, and the table
      afterwards. */
  function PaintRows(g: SegmentationMap, j: nat, t: Table): (r: PaintResult)
    requires j <= g.height
    // every fill lies in one of the first `j` rows, inside the grid's width
    ensures forall k :: 0 <= k < |r.0| ==> r.0[k].row < j && r.0[k].column < g.width
  {
    if j == 0 then
      ([], t)
    else
      var prev := PaintRows(g, j - 1, t);
      var row := PaintRow(g, j - 1, g.width, prev.1);
      (prev.0 + row.0, row.1)
  }

  /** A whole paint pass over `g`. */
  function Paint(g: SegmentationMap, t: Table): (r: PaintResult)
    // a pass never fills outside the grid
    ensures forall k :: 0 <= k < |r.0| ==> r.0[k].row < g.height && r.0[k].column < g.width
  {
    PaintRows(g, g.height, t)
  }

  /** The classes in the first `i` cells of row `j`. */
  function RowValues(g: SegmentationMap, j: nat, i: nat): set<int32>
    requires j < g.height && i <= g.width
  {
    set k | 0 <= k < i :: g.cells[j][k]
  }

  /** The classes in the first `j` rows. */
  function RowsValues(g: SegmentationMap, j: nat): set<int32>
    requires j <= g.height
  {
    if j == 0 then {} else RowsValues(g, j - 1) + RowValues(g, j - 1, g.width)
  }

  /** Every class that occurs in `g`. */
  function Values(g: SegmentationMap): set<int32> {
    RowsValues(g, g.height)
  }

  /** The classes of the first `j` rows are exactly the classes of their cells. */
  lemma {:induction false} RowsValuesCells(g: SegmentationMap, j: nat)
    requires j <= g.height
    ensures forall jj, k :: 0 <= jj < j && 0 <= k < g.width ==> g.cells[jj][k] in RowsValues(g, j)
    ensures forall v :: v in RowsValues(g, j) ==>
      exists jj, k :: 0 <= jj < j && 0 <= k < g.width && v == g.cells[jj][k]
  {
    if j > 0 {
      RowsValuesCells(g, j - 1);
      forall v | v in RowsValues(g, j)
        ensures exists jj, k :: 0 <= jj < j && 0 <= k < g.width && v == g.cells[jj][k]
      {
        if v !in RowsValues(g, j - 1) {
          var k :| 0 <= k < g.width && v == g.cells[j - 1][k];
        }
      }
    }
  }

  /** A class is in `Values(g)` exactly when some cell of `g` holds it. */
  lemma ValuesCells(g: SegmentationMap)
    ensures forall j, i :: 0 <= j < g.height && 0 <= i < g.width ==> g.cells[j][i] in Values(g)
    ensures forall v :: v in Values(g) ==>
      exists j, i :: 0 <= j < g.height && 0 <= i < g.width && v == g.cells[j][i]
  {
    RowsValuesCells(g, g.height);
  }

  /** Painting the first `i` cells of a row gives `i` fills. */
  lemma {:induction false} PaintRowLength(g: SegmentationMap, j: nat, i: nat, t: Table)
    requires j < g.height && i <= g.width
    ensures |PaintRow(g, j, i, t).0| == i
  {
    if i > 0 {
      PaintRowLength(g, j, i - 1, t);
    }
  }

  /** Painting part of a row leaves a table that extends the starting one. */
  lemma {:induction false} PaintRowExtends(g: SegmentationMap, j: nat, i: nat, t: Table)
    requires j < g.height && i <= g.width
    ensures Extends(t, PaintRow(g, j, i, t).1)
  {
    if i == 0 {
      ExtendsRefl(t);
    } else {
      PaintRowExtends(g, j, i - 1, t);
      LookupExtends(t, PaintRow(g, j, i - 1, t).1, g.cells[j][i - 1]);
    }
  }

  /** Painting the first `i` cells of row `j` fills cell `k` of them, left to
      right, with the colour the starting table gives that cell's class. */
  lemma {:induction false} PaintRowCell(g: SegmentationMap, j: nat, i: nat, t: Table, k: nat)
    requires j < g.height && k < i <= g.width
    ensures k < |PaintRow(g, j, i, t).0|
    ensures PaintRow(g, j, i, t).0[k] == Fill(j, k, Resolve(t, g.cells[j][k]))
  {
    var prev := PaintRow(g, j, i - 1, t);
    PaintRowLength(g, j, i - 1, t);
    if k < i - 1 {
      PaintRowCell(g, j, i - 1, t, k);
    } else {
      PaintRowExtends(g, j, i - 1, t);
      LookupExtends(t, prev.1, g.cells[j][k]);
    }
  }

  /** Painting the first `i` cells of row `j` adds exactly their classes to
      the table's keys. */
  lemma {:induction false} PaintRowKeys(g: SegmentationMap, j: nat, i: nat, t: Table)
    requires j < g.height && i <= g.width
    ensures PaintRow(g, j, i, t).1.Keys == t.Keys + RowValues(g, j, i)
  {
    if i == 0 {
      assert RowValues(g, j, 0) == {};
    } else {
      PaintRowKeys(g, j, i - 1, t);
      assert RowValues(g, j, i) == RowValues(g, j, i - 1) + {g.cells[j][i - 1]};
    }
  }

  /** `t2` extends `t1` and `t1` extends `t`: then `t2` extends `t`. */
  lemma ExtendsTrans(t: Table, t1: Table, t2: Table)
    requires Extends(t, t1) && Extends(t1, t2)
    ensures Extends(t, t2)
  {
  }

  /** `t1` extends `t`: then both give every class the same colour. */
  lemma ExtendsResolve(t: Table, t1: Table, v: int32)
    requires Extends(t, t1)
    ensures Resolve(t1, v) == Resolve(t, v)
  {
  }

  /** The position of cell (j, i) in the row-major order of a grid `w` cells
      wide, counted without multiplication: the cells of the `j` rows above
      come first. */
  function Offset(w: nat, j: nat, i: nat): nat {
    if j == 0 then i else w + Offset(w, j - 1, i)
  }

  /** The position of cell (j, i) is j * w + i. */
  lemma {:induction false} OffsetIsProduct(w: nat, j: nat, i: nat)
    ensures Offset(w, j, i) == j * w + i
  {
    if j > 0 {
      OffsetIsProduct(w, j - 1, i);
    }
  }

  lemma {:induction false} OffsetShift(w: nat, j: nat, i: nat)
    ensures Offset(w, j, i) == Offset(w, j, 0) + i
  {
    if j > 0 {
      OffsetShift(w, j - 1, i);
    }
  }

  /** A cell of an earlier row comes before every cell of row `j`. */
  lemma {:induction false} OffsetBound(w: nat, jj: nat, k: nat, j: nat)
    requires jj < j && k < w
    ensures Offset(w, jj, k) < Offset(w, j, 0)
  {
    if jj < j - 1 {
      OffsetBound(w, jj, k, j - 1);
    } else {
      OffsetShift(w, jj, k);
    }
  }

  /** Row-major order: the cells of a grid `w` wide sit at distinct positions,
      all below h * w, and a cell comes before every cell of a later row and
      before the cells to its right. */
  lemma OffsetOrder(w: nat, h: nat, j: nat, i: nat, j2: nat, i2: nat)
    requires j < h && j2 < h && i < w && i2 < w
    ensures Offset(w, j, i) < h * w
    ensures (j < j2 || (j == j2 && i < i2)) ==> Offset(w, j, i) < Offset(w, j2, i2)
    ensures Offset(w, j, i) == Offset(w, j2, i2) ==> j == j2 && i == i2
  {
    OffsetBound(w, j, i, h);
    OffsetShift(w, h, 0);
    OffsetIsProduct(w, h, 0);
    OffsetShift(w, j, i);
    OffsetShift(w, j2, i2);
    if j < j2 {
      OffsetBound(w, j, i, j2);
    } else if j2 < j {
      OffsetBound(w, j2, i2, j);
    }
  }

  /** Painting the first `j` rows gives j * width fills. */
  lemma {:induction false} PaintRowsLength(g: SegmentationMap, j: nat, t: Table)
    requires j <= g.height
    ensures |PaintRows(g, j, t).0| == Offset(g.width, j, 0)
  {
    if j > 0 {
      PaintRowsLength(g, j - 1, t);
      PaintRowLength(g, j - 1, g.width, PaintRows(g, j - 1, t).1);
      OffsetShift(g.width, j - 1, g.width);
    }
  }

  /** Painting the first `j` rows leaves a table that extends the starting one. */
  lemma {:induction false} PaintRowsExtends(g: SegmentationMap, j: nat, t: Table)
    requires j <= g.height
    ensures Extends(t, PaintRows(g, j, t).1)
  {
    if j == 0 {
      ExtendsRefl(t);
    } else {
      PaintRowsExtends(g, j - 1, t);
      var t1 := PaintRows(g, j - 1, t).1;
      PaintRowExtends(g, j - 1, g.width, t1);
      ExtendsTrans(t, t1, PaintRow(g, j - 1, g.width, t1).1);
    }
  }

  /** Painting the first `j` rows adds exactly the classes met to the table's
      keys. */
  lemma {:induction false} PaintRowsKeys(g: SegmentationMap, j: nat, t: Table)
    requires j <= g.height
    ensures PaintRows(g, j, t).1.Keys == t.Keys + RowsValues(g, j)
  {
    if j > 0 {
      PaintRowsKeys(g, j - 1, t);
      PaintRowKeys(g, j - 1, g.width, PaintRows(g, j - 1, t).1);
    }
  }

  /** Painting the first `j` rows fills the cell (jj, k) of those rows at
      position jj * width + k, with the colour the starting table gives its
      class. */
  lemma {:induction false} PaintRowsCell(g: SegmentationMap, j: nat, t: Table, jj: nat, k: nat)
    requires j <= g.height && jj < j && k < g.width
    ensures Offset(g.width, jj, k) < |PaintRows(g, j, t).0|
    ensures PaintRows(g, j, t).0[Offset(g.width, jj, k)] == Fill(jj, k, Resolve(t, g.cells[jj][k]))
  {
    if jj < j - 1 {
      var prev := PaintRows(g, j - 1, t);
      PaintRowsLength(g, j - 1, t);
      PaintRowsCell(g, j - 1, t, jj, k);
      OffsetBound(g.width, jj, k, j - 1);
      assert PaintRows(g, j, t).0 == prev.0 + PaintRow(g, j - 1, g.width, prev.1).0;
    } else {
      PaintRowsLastRowCell(g, j, t, k);
    }
  }

  /** The cells of the last of the first `j` rows come after all earlier rows. */
  lemma PaintRowsLastRowCell(g: SegmentationMap, j: nat, t: Table, k: nat)
    requires 0 < j <= g.height && k < g.width
    ensures Offset(g.width, j - 1, k) < |PaintRows(g, j, t).0|
    ensures PaintRows(g, j, t).0[Offset(g.width, j - 1, k)] == Fill(j - 1, k, Resolve(t, g.cells[j - 1][k]))
  {
    var prev := PaintRows(g, j - 1, t).0;
    var row := PaintRow(g, j - 1, g.width, PaintRows(g, j - 1, t).1).0;
    assert PaintRows(g, j, t).0 == prev + row;
    PaintRowsLength(g, j - 1, t);
    OffsetShift(g.width, j - 1, k);
    LastRowColour(g, j, t, k);
  }

  /** Row `j - 1`, painted after the rows above it, gives its cell `k` the
      colour the starting table gives that cell's class. */
  lemma LastRowColour(g: SegmentationMap, j: nat, t: Table, k: nat)
    requires 0 < j <= g.height && k < g.width
    ensures k < |PaintRow(g, j - 1, g.width, PaintRows(g, j - 1, t).1).0|
    ensures PaintRow(g, j - 1, g.width, PaintRows(g, j - 1, t).1).0[k] ==
      Fill(j - 1, k, Resolve(t, g.cells[j - 1][k]))
  {
    var t1 := PaintRows(g, j - 1, t).1;
    PaintRowCell(g, j - 1, g.width, t1, k);
    PaintRowsExtends(g, j - 1, t);
    ExtendsResolve(t, t1, g.cells[j - 1][k]);
  }

  /** Every position before the first cell of row `j` is the position of a
      cell of an earlier row. */
  lemma {:induction false} OffsetCovers(w: nat, j: nat, p: nat)
    requires p < Offset(w, j, 0)
    ensures exists jj: nat, k: nat :: jj < j && k < w && Offset(w, jj, k) == p
  {
    if p < Offset(w, j - 1, 0) {
      OffsetCovers(w, j - 1, p);
    } else {
      var k: nat := p - Offset(w, j - 1, 0);
      OffsetShift(w, j - 1, k);
      assert Offset(w, j - 1, k) == p;
    }
  }

  /** A whole paint pass fills exactly height * width cells. */
  lemma PaintLength(g: SegmentationMap, t: Table)
    ensures |Paint(g, t).0| == g.height * g.width
  {
    PaintRowsLength(g, g.height, t);
    OffsetIsProduct(g.width, g.height, 0);
  }

  /** A whole paint pass fills the cell (j, i) at position j * width + i of
      the row-major order (each cell once, rows top to bottom, cells left to
      right), with the colour the starting table gives `cells[j][i]`. */
  lemma PaintCells(g: SegmentationMap, t: Table)
    ensures |Paint(g, t).0| == g.height * g.width
    ensures forall j: nat, i: nat :: j < g.height && i < g.width ==>
      j * g.width + i < |Paint(g, t).0| &&
      Paint(g, t).0[j * g.width + i] == Fill(j, i, Resolve(t, g.cells[j][i]))
  {
    PaintLength(g, t);
    forall j: nat, i: nat | j < g.height && i < g.width {
      PaintCell(g, t, j, i);
    }
  }

  /** `PaintCells` for one cell. */
  lemma PaintCell(g: SegmentationMap, t: Table, j: nat, i: nat)
    requires j < g.height && i < g.width
    ensures j * g.width + i < |Paint(g, t).0|
    ensures Paint(g, t).0[j * g.width + i] == Fill(j, i, Resolve(t, g.cells[j][i]))
  {
    PaintRowsCell(g, g.height, t, j, i);
    OffsetIsProduct(g.width, j, i);
  }

  /** Each cell is filled only once: two fills of a pass that name the same
      row and column are the same fill. With `PaintCells`, every cell is
      filled exactly once. */
  lemma PaintOnce(g: SegmentationMap, t: Table, p: nat, q: nat)
    requires p < |Paint(g, t).0| && q < |Paint(g, t).0|
    requires Paint(g, t).0[p].row == Paint(g, t).0[q].row
    requires Paint(g, t).0[p].column == Paint(g, t).0[q].column
    ensures p == q
  {
    var w := g.width;
    PaintRowsLength(g, g.height, t);
    OffsetCovers(w, g.height, p);
    OffsetCovers(w, g.height, q);
    var j1: nat, i1: nat :| j1 < g.height && i1 < w && Offset(w, j1, i1) == p;
    var j2: nat, i2: nat :| j2 < g.height && i2 < w && Offset(w, j2, i2) == q;
    PaintRowsCell(g, g.height, t, j1, i1);
    PaintRowsCell(g, g.height, t, j2, i2);
    assert Paint(g, t).0[p] == Fill(j1, i1, Resolve(t, g.cells[j1][i1]));
    assert Paint(g, t).0[q] == Fill(j2, i2, Resolve(t, g.cells[j2][i2]));
  }

  /** After a whole paint pass every class of the grid is a key of the table,
      nothing else was added, no earlier entry has changed, and every added
      entry is the hue colour of its class. */
  lemma PaintTable(g: SegmentationMap, t: Table)
    ensures Paint(g, t).1.Keys == t.Keys + Values(g)
    ensures Values(g) <= Paint(g, t).1.Keys
    ensures forall k :: k in t ==> Paint(g, t).1[k] == t[k]
    ensures forall k :: k in Paint(g, t).1 && k !in t ==> Paint(g, t).1[k] == HueColor(k)
  {
    PaintRowsKeys(g, g.height, t);
    PaintRowsExtends(g, g.height, t);
  }

  /** Starting from a coherent table, every cell is painted with the canonical
      colour of its class (transparent for classes 0 and 20), and the table
      stays coherent. */
  lemma PaintCoherent(g: SegmentationMap, t: Table)
    requires Coherent(t)
    ensures forall j: nat, i: nat :: j < g.height && i < g.width ==>
      Offset(g.width, j, i) < |Paint(g, t).0| &&
      Paint(g, t).0[Offset(g.width, j, i)] == Fill(j, i, Canonical(g.cells[j][i]))
    ensures Coherent(Paint(g, t).1)
  {
    PaintRowsExtends(g, g.height, t);
    ExtendsCoherent(t, Paint(g, t).1);
    forall j: nat, i: nat | j < g.height && i < g.width
      ensures Offset(g.width, j, i) < |Paint(g, t).0|
      ensures Paint(g, t).0[Offset(g.width, j, i)] == Fill(j, i, Canonical(g.cells[j][i]))
    {
      PaintRowsCell(g, g.height, t, j, i);
      ResolveCoherent(t, g.cells[j][i]);
    }
  }

  /** `t` and `t1` give every class the same colour. */
  ghost predicate SameResolve(t: Table, t1: Table) {
    forall v :: Resolve(t, v) == Resolve(t1, v)
  }

  lemma ExtendsSameResolve(t: Table, t1: Table)
    requires Extends(t, t1)
    ensures SameResolve(t, t1)
  {
    forall v ensures Resolve(t, v) == Resolve(t1, v) {
      ExtendsResolve(t, t1, v);
    }
  }

  /** Painting part of a row from two tables that give every class the same
      colour yields the same fills and again two such tables. */
  lemma {:induction false} PaintRowSameResolve(g: SegmentationMap, j: nat, i: nat, t: Table, u: Table)
    requires j < g.height && i <= g.width
    requires SameResolve(t, u)
    ensures PaintRow(g, j, i, t).0 == PaintRow(g, j, i, u).0
    ensures SameResolve(PaintRow(g, j, i, t).1, PaintRow(g, j, i, u).1)
  {
    if i > 0 {
      PaintRowSameResolve(g, j, i - 1, t, u);
      var t1 := PaintRow(g, j, i - 1, t).1;
      var u1 := PaintRow(g, j, i - 1, u).1;
      var v := g.cells[j][i - 1];
      assert Resolve(t1, v) == Resolve(u1, v);
      ExtendsRefl(t1);
      ExtendsRefl(u1);
      LookupExtends(t1, t1, v);
      LookupExtends(u1, u1, v);
      ExtendsSameResolve(t1, Lookup(t1, v).1);
      ExtendsSameResolve(u1, Lookup(u1, v).1);
    }
  }

  lemma {:induction false} PaintRowsSameResolve(g: SegmentationMap, j: nat, t: Table, u: Table)
    requires j <= g.height
    requires SameResolve(t, u)
    ensures PaintRows(g, j, t).0 == PaintRows(g, j, u).0
    ensures SameResolve(PaintRows(g, j, t).1, PaintRows(g, j, u).1)
  {
    if j > 0 {
      PaintRowsSameResolve(g, j - 1, t, u);
      PaintRowSameResolve(g, j - 1, g.width, PaintRows(g, j - 1, t).1, PaintRows(g, j - 1, u).1);
    }
  }

  /** Painting the same grid again from the table the first pass left behind
      gives the same fills and leaves the table unchanged. */
  lemma PaintAgain(g: SegmentationMap, t: Table)
    ensures Paint(g, Paint(g, t).1) == Paint(g, t)
  {
    var t1 := Paint(g, t).1;
    PaintRowsKeys(g, g.height, t);
    PaintRowsKeys(g, g.height, t1);
    PaintRowsExtends(g, g.height, t);
    PaintRowsExtends(g, g.height, t1);
    var t2 := Paint(g, t1).1;
    ExtendsSameResolve(t, t1);
    PaintRowsSameResolve(g, g.height, t, t1);
    assert t2 == t1 by {
      assert t2.Keys == t1.Keys;
      forall k | k in t2 ensures t2[k] == t1[k] {
        assert t2[k] == Resolve(t1, k);
      }
    }
  }
}
