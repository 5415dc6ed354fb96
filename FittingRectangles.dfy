/** `FittingRectangles.cpp`: the grid of 0/1 values, its division into
    tiles, and the program's global state, through which `Solve` builds the
    unfiltered rectangle-covering model of the current tile and logs every
    constraint it adds in one list that is never cleared. */
module FittingRectangles {
  import opened LinearModel
  import opened Linearization
  import opened Indexing
  import opened Placement
  import opened Selection
  import opened Steps
  import opened Tiling

  // ---------------------------------------------------------------------
  // The grid.

  /** `Base`: the pair of the grid's values row by row (value `(i, j)` at
      `i + width*j`, non-zero for a crossing) and its width and height. */
  datatype Base = Base(cells: seq<int>, width: int, height: int) {
    /** The values fill a `width` by `height` grid. */
    predicate Shaped() {
      0 <= width && 0 <= height && |cells| == width * height
    }
  }

  /** `ConstructBase`: pairs the values with the dimensions. */
  function ConstructBase(base: seq<int>, width: int, height: int): (b: Base)
    ensures b.cells == base && b.width == width && b.height == height
  {
    Base(base, width, height)
  }

  /** How the model sees a value: a crossing is special, and no cell is
      ever absent. */
  function KindOf(v: int): Kind {
    if v != 0 then Special else Plain
  }

  function Kinds(vs: seq<int>): (r: seq<Kind>)
    ensures |r| == |vs| && forall k :: 0 <= k < |vs| ==> r[k] == KindOf(vs[k])
  {
    seq(|vs|, k requires 0 <= k < |vs| => KindOf(vs[k]))
  }

  // ---------------------------------------------------------------------
  // Copying a region out, as written: column by column.

  /** The copy `CopySubMatrix` makes of region `r`: its cells in footprint
      order, column by column. */
  function ColumnMajorCopy<T>(cells: seq<T>, width: int, r: Region): (c: seq<T>)
    requires 0 <= r.w && 0 <= r.h && InRange(FootprintIndices(width, r.x, r.y, r.w, r.h), |cells|)
  {
    Gather(cells, FootprintIndices(width, r.x, r.y, r.w, r.h))
  }

  /** `tile` holds region `r` of a grid `width` cells wide column by column:
      cell `(r.x + i, r.y + j)` at `i*r.h + j`, that is, as the grid of the
      region's transpose, `r.h` cells wide. */
  ghost predicate ColumnCopyOf<T>(tile: seq<T>, cells: seq<T>, width: int, r: Region) {
    |tile| == r.w * r.h &&
    forall i, j :: 0 <= i < r.w && 0 <= j < r.h ==>
      0 <= Index(r.h, j, i) < |tile| && 0 <= At(width, r.x, r.y, i, j) < |cells| &&
      tile[Index(r.h, j, i)] == cells[At(width, r.x, r.y, i, j)]
  }

  /** The column-by-column copy of a region holds it column by column. */
  lemma ColumnMajorCopyOf<T>(cells: seq<T>, width: int, height: int, r: Region)
    requires |cells| == width * height
    requires 0 <= r.x && 0 <= r.w && r.x + r.w <= width && 0 <= r.y && 0 <= r.h && r.y + r.h <= height
    ensures InRange(FootprintIndices(width, r.x, r.y, r.w, r.h), |cells|)
    ensures ColumnCopyOf(ColumnMajorCopy(cells, width, r), cells, width, r)
  {
    FootprintInGrid(width, height, r.x, r.y, r.w, r.h);
    var tile := ColumnMajorCopy(cells, width, r);
    RowStartIs(r.h, r.w);
    assert |tile| == r.w * r.h by {
      assert r.h * r.w == r.w * r.h;
    }
    forall i, j | 0 <= i < r.w && 0 <= j < r.h
      ensures 0 <= Index(r.h, j, i) < |tile| && 0 <= At(width, r.x, r.y, i, j) < |cells| &&
              tile[Index(r.h, j, i)] == cells[At(width, r.x, r.y, i, j)]
    {
      FootprintAt(width, r.x, r.y, r.w, r.h, i, j);
      assert Index(r.h, j, i) == i * r.h + j;
      IndexInRange(width, height, r.x + i, r.y + j);
    }
  }

  /** `CopySubMatrix`, as written: the `w` by `h` region at `(x, y)` of a
      grid `baseW` cells wide (and `baseH` high), column by column, value
      `(i, j)` of the region at `i*h + j`. */
  method CopySubMatrix(base: seq<int>, baseW: int, x: int, y: int, w: int, h: int, ghost baseH: int) returns (res: seq<int>)
    requires 0 <= baseW && 0 <= baseH && |base| == baseW * baseH
    requires 0 <= x && 0 <= w && x + w <= baseW && 0 <= y && 0 <= h && y + h <= baseH
    ensures InRange(FootprintIndices(baseW, x, y, w, h), |base|)
    ensures res == ColumnMajorCopy(base, baseW, Region(x, y, w, h))
    ensures ColumnCopyOf(res, base, baseW, Region(x, y, w, h))
  {
    ColumnMajorCopyOf(base, baseW, baseH, Region(x, y, w, h));
    res := [];
    for i := x to x + w
      invariant InRange(FootprintIndices(baseW, x, y, i - x, h), |base|)
      invariant res == Gather(base, FootprintIndices(baseW, x, y, i - x, h))
    {
      res := CopyColumn(base, baseW, x, y, i, h, baseH, res);
    }
  }

  /** The inner loop of `CopySubMatrix`: column `i` of the region, top to
      bottom, appended to the columns to its left. */
  method CopyColumn(base: seq<int>, baseW: int, x: int, y: int, i: int, h: int, ghost baseH: int, left: seq<int>)
    returns (res: seq<int>)
    requires 0 <= baseW && 0 <= baseH && |base| == baseW * baseH
    requires 0 <= x <= i < baseW && 0 <= y && 0 <= h && y + h <= baseH
    requires InRange(FootprintIndices(baseW, x, y, i - x, h), |base|)
    requires left == Gather(base, FootprintIndices(baseW, x, y, i - x, h))
    ensures InRange(FootprintIndices(baseW, x, y, i + 1 - x, h), |base|)
    ensures res == Gather(base, FootprintIndices(baseW, x, y, i + 1 - x, h))
  {
    ghost var done := FootprintIndices(baseW, x, y, i - x, h);
    assert done + ColumnIndices(baseW, x, y, i - x, 0) == done;
    res := left;
    for j := y to y + h
      invariant InRange(done + ColumnIndices(baseW, x, y, i - x, j - y), |base|)
      invariant res == Gather(base, done + ColumnIndices(baseW, x, y, i - x, j - y))
    {
      IndexInRange(baseW, baseH, i, j);
      ghost var idx := done + ColumnIndices(baseW, x, y, i - x, j - y);
      GatherSnoc(base, idx, Index(baseW, i, j));
      ColumnIndicesSnoc(baseW, x, y, i - x, j - y);
      AppendAssoc(done, ColumnIndices(baseW, x, y, i - x, j - y), [Index(baseW, i, j)]);
      res := res + [base[i + baseW * j]];
    }
  }

  // ---------------------------------------------------------------------
  // What the copy does to the reader.

  /** The copy is read back wrongly: `ComputeSum` and the printing in
      `Solve` read the tile's values row by row, value `(i, j)` at
      `i + numNodesX*j`. (`AddProductConstraints` indexes the cell
      variables, not the values, so the product constraints are not
      affected: only the special count and the printed grid are.) In the
      2 by 2 grid whose only crossing is cell
      `(1, 0)`, cut as a single tile, the tile's value `(1, 0)` is 0 and its
      value `(0, 1)` is the crossing, so the tile is not the region. */
  lemma ColumnMajorTileMisread(cells: seq<int>, r: Region)
    requires cells == [0, 1, 0, 0] && r == Region(0, 0, 2, 2)
    ensures InRange(FootprintIndices(2, r.x, r.y, r.w, r.h), |cells|)
    ensures ColumnMajorCopy(cells, 2, r) == [0, 0, 1, 0]
    ensures ColumnMajorCopy(cells, 2, r)[Index(2, 1, 0)] != cells[Index(2, 1, 0)]
    ensures !CopyOf(ColumnMajorCopy(cells, 2, r), cells, 2, r)
  {
    SmallColumnCopy();
    SmallTileDiffers(ColumnMajorCopy(cells, 2, r), cells, r);
  }

  /** The copy `[0, 0, 1, 0]` of `[0, 1, 0, 0]` differs from it at value
      `(1, 0)`. */
  lemma SmallTileDiffers(tile: seq<int>, cells: seq<int>, r: Region)
    requires tile == [0, 0, 1, 0] && cells == [0, 1, 0, 0] && r == Region(0, 0, 2, 2)
    ensures tile[Index(2, 1, 0)] != cells[Index(2, 1, 0)]
    ensures !CopyOf(tile, cells, 2, r)
  {
    assert Index(r.w, 1, 0) == 1 && At(2, r.x, r.y, 1, 0) == 1;
  }

  /** The column-by-column copy of the whole 2 by 2 grid `[0, 1, 0, 0]`. */
  lemma SmallColumnCopy()
    ensures InRange(FootprintIndices(2, 0, 0, 2, 2), 4)
    ensures ColumnMajorCopy([0, 1, 0, 0], 2, Region(0, 0, 2, 2)) == [0, 0, 1, 0]
  {
    var idx := FootprintIndices(2, 0, 0, 2, 2);
    SmallFootprint();
    SmallGather(idx);
  }

  lemma SmallGather(idx: seq<int>)
    requires idx == [0, 2, 1, 3]
    ensures InRange(idx, 4) && Gather([0, 1, 0, 0], idx) == [0, 0, 1, 0]
  {
    var tile := Gather([0, 1, 0, 0], idx);
    assert tile[0] == 0 && tile[1] == 0 && tile[2] == 1 && tile[3] == 0;
  }

  /** The footprint of the whole 2 by 2 grid, column by column. */
  lemma SmallFootprint()
    ensures FootprintIndices(2, 0, 0, 2, 2) == [0, 2, 1, 3]
  {
    assert ColumnIndices(2, 0, 0, 0, 2) == [0, 2];
    assert ColumnIndices(2, 0, 0, 1, 2) == [1, 3];
    assert FootprintIndices(2, 0, 0, 1, 2) == [0, 2];
  }

  /** ... whenever the region is more than one cell wide and high: read row
      by row, a square tile is the region's transpose. */
  lemma SquareTileTransposed<T>(tile: seq<T>, cells: seq<T>, width: int, r: Region, i: int, j: int)
    requires ColumnCopyOf(tile, cells, width, r) && r.w == r.h
    requires 0 <= i < r.w && 0 <= j < r.h
    ensures 0 <= Index(r.w, i, j) < |tile| && 0 <= At(width, r.x, r.y, j, i) < |cells|
    ensures tile[Index(r.w, i, j)] == cells[At(width, r.x, r.y, j, i)]
  {
  }

  /** ... and only a tile one cell wide or one cell high reads back as the
      region: there the two orders are the same. */
  lemma StripCopiesAgree<T>(tile: seq<T>, cells: seq<T>, width: int, r: Region)
    requires r.w == 1 || r.h == 1
    ensures ColumnCopyOf(tile, cells, width, r) <==> CopyOf(tile, cells, width, r)
  {
    forall i, j | 0 <= i < r.w && 0 <= j < r.h
      ensures Index(r.h, j, i) == Index(r.w, i, j)
    {
      if r.w == 1 {
        assert i == 0;
      } else {
        assert j == 0;
      }
    }
  }

  /** The copy the readers expect, row by row, value `(i, j)` of the region
      at `i + w*j`: each tile then holds its region. */
  method CopySubMatrixRowMajor(base: seq<int>, baseW: int, x: int, y: int, w: int, h: int, ghost baseH: int)
    returns (res: seq<int>)
    requires 0 <= baseW && 0 <= baseH && |base| == baseW * baseH
    requires 0 <= x && 0 <= w && x + w <= baseW && 0 <= y && 0 <= h && y + h <= baseH
    ensures InRange(RowMajorIndices(baseW, x, y, w, h), |base|)
    ensures res == RowMajorCopy(base, baseW, Region(x, y, w, h))
    ensures CopyOf(res, base, baseW, Region(x, y, w, h))
  {
    RowMajorCopyOf(base, baseW, baseH, Region(x, y, w, h));
    res := [];
    for j := y to y + h
      invariant InRange(RowMajorIndices(baseW, x, y, w, j - y), |base|)
      invariant res == Gather(base, RowMajorIndices(baseW, x, y, w, j - y))
    {
      res := CopyRow(base, baseW, x, y, w, j, baseH, res);
    }
  }

  /** The inner loop of the row-by-row copy: row `j` of the region, left to
      right, appended to the rows above it. */
  method CopyRow(base: seq<int>, baseW: int, x: int, y: int, w: int, j: int, ghost baseH: int, above: seq<int>)
    returns (res: seq<int>)
    requires 0 <= baseW && 0 <= baseH && |base| == baseW * baseH
    requires 0 <= x && 0 <= w && x + w <= baseW && 0 <= y <= j < baseH
    requires InRange(RowMajorIndices(baseW, x, y, w, j - y), |base|)
    requires above == Gather(base, RowMajorIndices(baseW, x, y, w, j - y))
    ensures InRange(RowMajorIndices(baseW, x, y, w, j + 1 - y), |base|)
    ensures res == Gather(base, RowMajorIndices(baseW, x, y, w, j + 1 - y))
  {
    ghost var done := RowMajorIndices(baseW, x, y, w, j - y);
    assert done + RowIndices(baseW, x, y, j - y, 0) == done;
    res := above;
    for i := x to x + w
      invariant InRange(done + RowIndices(baseW, x, y, j - y, i - x), |base|)
      invariant res == Gather(base, done + RowIndices(baseW, x, y, j - y, i - x))
    {
      IndexInRange(baseW, baseH, i, j);
      ghost var idx := done + RowIndices(baseW, x, y, j - y, i - x);
      GatherSnoc(base, idx, Index(baseW, i, j));
      RowIndicesSnoc(baseW, x, y, j - y, i - x);
      AppendAssoc(done, RowIndices(baseW, x, y, j - y, i - x), [Index(baseW, i, j)]);
      res := res + [base[i + baseW * j]];
    }
  }

  // ---------------------------------------------------------------------
  // Dividing the grid into tiles.

  /** `bases` holds grids copied column by column from the regions `rs` of
      a grid `width` cells wide: grid `k` is as wide and as high as
      region `k`. */
  ghost predicate ColumnCopies(bases: seq<Base>, cells: seq<int>, width: int, rs: seq<Region>) {
    |bases| == |rs| &&
    forall k :: 0 <= k < |rs| ==>
      bases[k].width == rs[k].w && bases[k].height == rs[k].h && ColumnCopyOf(bases[k].cells, cells, width, rs[k])
  }

  /** One more tile of a column of tiles. */
  lemma ColumnCopiesSnoc(bases: seq<Base>, tile: Base, cells: seq<int>, width: int,
                         done: seq<Region>, column: seq<Region>, r: Region)
    requires ColumnCopies(bases, cells, width, done + column)
    requires tile.width == r.w && tile.height == r.h && ColumnCopyOf(tile.cells, cells, width, r)
    ensures ColumnCopies(bases + [tile], cells, width, done + (column + [r]))
  {
    AppendAssoc(done, column, [r]);
    var rs := done + column;
    assert forall k :: 0 <= k < |rs| ==> (bases + [tile])[k] == bases[k] && (rs + [r])[k] == rs[k];
  }

  /** `DivideBase`: cuts the grid into `numX` by `numY` tiles, column of
      tiles by column of tiles, tile `(i, j)` starting at `(i*wD, j*hD)`
      with `wD = width / numX` and `hD = height / numY`, `wD` by `hD` cells
      except that the last column and the last row of tiles take what
      remains; each tile is copied column by column. A negative count
      gives no tiles; a zero count divides by zero and is excluded. */
  method DivideBase(baseSet: Base, numX: int, numY: int) returns (bases: seq<Base>)
    requires baseSet.Shaped() && numX != 0 && numY != 0
    ensures numX < 0 || numY < 0 ==> bases == []
    ensures 1 <= numX && 1 <= numY ==> |bases| == numX * numY
    ensures 1 <= numX && 1 <= numY ==>
              ColumnCopies(bases, baseSet.cells, baseSet.width, ColumnMajorTiles(baseSet.width, baseSet.height, numX, numY, numX))
  {
    var w, h := baseSet.width, baseSet.height;
    var wD, hD := w / numX, h / numY;
    bases := [];
    if numX < 0 || numY < 0 {
      // A negative count: one of the two loops does not run, and no tile is made.
      return;
    }
    for i := 0 to numX
      invariant ColumnCopies(bases, baseSet.cells, w, ColumnMajorTiles(w, h, numX, numY, i))
    {
      bases := CutColumn(baseSet, numX, numY, wD, hD, i, bases);
    }
  }

  /** The inner loop of `DivideBase`: the tiles of column `i`, top to
      bottom, appended to those of the columns to its left. */
  method CutColumn(baseSet: Base, numX: int, numY: int, wD: int, hD: int, i: int, left: seq<Base>) returns (bases: seq<Base>)
    requires baseSet.Shaped() && 1 <= numX && 1 <= numY && 0 <= i < numX
    requires wD == baseSet.width / numX && hD == baseSet.height / numY
    requires ColumnCopies(left, baseSet.cells, baseSet.width, ColumnMajorTiles(baseSet.width, baseSet.height, numX, numY, i))
    ensures ColumnCopies(bases, baseSet.cells, baseSet.width, ColumnMajorTiles(baseSet.width, baseSet.height, numX, numY, i + 1))
  {
    var w, h := baseSet.width, baseSet.height;
    ghost var done := ColumnMajorTiles(w, h, numX, numY, i);
    bases := left;
    for j := 0 to numY
      invariant ColumnCopies(bases, baseSet.cells, w, done + TileColumn(w, h, numX, numY, i, j))
    {
      ghost var r := TileRegion(w, h, numX, numY, i, j);
      var tile := CutTile(baseSet, numX, numY, wD, hD, i, j);
      ColumnCopiesSnoc(bases, tile, baseSet.cells, w, done, TileColumn(w, h, numX, numY, i, j), r);
      bases := bases + [tile];
    }
  }

  /** The body of `DivideBase`'s loops: tile `(i, j)`, its corner and its
      size chosen by whether it is in the last column or the last row. */
  method CutTile(baseSet: Base, numX: int, numY: int, wD: int, hD: int, i: int, j: int) returns (tile: Base)
    requires baseSet.Shaped() && 1 <= numX && 1 <= numY && 0 <= i < numX && 0 <= j < numY
    requires wD == baseSet.width / numX && hD == baseSet.height / numY
    ensures var r := TileRegion(baseSet.width, baseSet.height, numX, numY, i, j);
            tile.width == r.w && tile.height == r.h && ColumnCopyOf(tile.cells, baseSet.cells, baseSet.width, r)
  {
    var w, h := baseSet.width, baseSet.height;
    var curX, curY := i * wD, j * hD;
    var curW, curH;
    if i == numX - 1 {
      if j == numY - 1 {
        curW, curH := w - i * wD, h - j * hD;
      } else {
        curW, curH := w - i * wD, hD;
      }
    } else if j == numY - 1 {
      curW, curH := wD, h - j * hD;
    } else {
      curW, curH := wD, hD;
    }
    assert Region(curX, curY, curW, curH) == TileRegion(w, h, numX, numY, i, j);
    TileInside(w, h, numX, numY, i, j);
    var cells := CopySubMatrix(baseSet.cells, w, curX, curY, curW, curH, h);
    tile := ConstructBase(cells, curW, curH);
  }

  /** What `DivideBase` hands out: tile `(i, j)` at position `i*numY + j`,
      `wD` wide (the last column the rest of the width) and `hD` high (the
      last row the rest of the height), holding the values of its region
      column by column. */
  lemma DividedTiles(bases: seq<Base>, base: Base, numX: int, numY: int, i: int, j: int)
    requires base.Shaped() && 1 <= numX && 1 <= numY && 0 <= i < numX && 0 <= j < numY
    requires ColumnCopies(bases, base.cells, base.width, ColumnMajorTiles(base.width, base.height, numX, numY, numX))
    ensures 0 <= i * numY + j < |bases|
    ensures var t, wD, hD := bases[i * numY + j], base.width / numX, base.height / numY;
            t.width == (if i == numX - 1 then base.width - (numX - 1) * wD else wD) &&
            t.height == (if j == numY - 1 then base.height - (numY - 1) * hD else hD) &&
            ColumnCopyOf(t.cells, base.cells, base.width, Region(i * wD, j * hD, t.width, t.height))
  {
    ColumnMajorTilesAt(base.width, base.height, numX, numY, numX, i, j);
    assert Index(numY, j, i) == i * numY + j;
  }

  /** The tiles cover the grid without overlapping, and their areas add up
      to the grid's. */
  lemma DividedCover(base: Base, numX: int, numY: int, x: int, y: int, i: int, j: int)
    requires base.Shaped() && 1 <= numX && 1 <= numY
    requires 0 <= x < base.width && 0 <= y < base.height && 0 <= i < numX && 0 <= j < numY
    ensures RegionContains(TileRegion(base.width, base.height, numX, numY, i, j), x, y) <==>
            i == Owner(Extents(base.width, numX), x) && j == Owner(Extents(base.height, numY), y)
    ensures Area(ColumnMajorTiles(base.width, base.height, numX, numY, numX)) == base.width * base.height
  {
    GridCover(base.width, base.height, numX, numY, x, y, i, j);
    TileAreas(base.width, base.height, numX, numY);
  }

  // ---------------------------------------------------------------------
  // Dividing the grid as the readers of a tile expect.

  /** `bases` holds grids copied row by row from the regions `rs` of a grid
      `width` cells wide: grid `k` is as wide and as high as region `k`. */
  ghost predicate RowCopies(bases: seq<Base>, cells: seq<int>, width: int, rs: seq<Region>) {
    |bases| == |rs| &&
    forall k :: 0 <= k < |rs| ==>
      bases[k].width == rs[k].w && bases[k].height == rs[k].h && CopyOf(bases[k].cells, cells, width, rs[k])
  }

  /** One more tile of a column of tiles, copied row by row. */
  lemma RowCopiesSnoc(bases: seq<Base>, tile: Base, cells: seq<int>, width: int,
                      done: seq<Region>, column: seq<Region>, r: Region)
    requires RowCopies(bases, cells, width, done + column)
    requires tile.width == r.w && tile.height == r.h && CopyOf(tile.cells, cells, width, r)
    ensures RowCopies(bases + [tile], cells, width, done + (column + [r]))
  {
    AppendAssoc(done, column, [r]);
    var rs := done + column;
    assert forall k :: 0 <= k < |rs| ==> (bases + [tile])[k] == bases[k] && (rs + [r])[k] == rs[k];
  }

  /** `DivideBase` with the row-by-row copy: the same tiles in the same
      order, each holding its region the way `ComputeSum` and the printing
      in `Solve` read it. */
  method DivideBaseRowMajor(baseSet: Base, numX: int, numY: int) returns (bases: seq<Base>)
    requires baseSet.Shaped() && 1 <= numX && 1 <= numY
    ensures |bases| == numX * numY
    ensures RowCopies(bases, baseSet.cells, baseSet.width, ColumnMajorTiles(baseSet.width, baseSet.height, numX, numY, numX))
  {
    var w, h := baseSet.width, baseSet.height;
    var wD, hD := w / numX, h / numY;
    bases := [];
    for i := 0 to numX
      invariant RowCopies(bases, baseSet.cells, w, ColumnMajorTiles(w, h, numX, numY, i))
    {
      bases := CutColumnRowMajor(baseSet, numX, numY, wD, hD, i, bases);
    }
  }

  /** The inner loop of the corrected division: the tiles of column `i`. */
  method CutColumnRowMajor(baseSet: Base, numX: int, numY: int, wD: int, hD: int, i: int, left: seq<Base>)
    returns (bases: seq<Base>)
    requires baseSet.Shaped() && 1 <= numX && 1 <= numY && 0 <= i < numX
    requires wD == baseSet.width / numX && hD == baseSet.height / numY
    requires RowCopies(left, baseSet.cells, baseSet.width, ColumnMajorTiles(baseSet.width, baseSet.height, numX, numY, i))
    ensures RowCopies(bases, baseSet.cells, baseSet.width, ColumnMajorTiles(baseSet.width, baseSet.height, numX, numY, i + 1))
  {
    var w, h := baseSet.width, baseSet.height;
    ghost var done := ColumnMajorTiles(w, h, numX, numY, i);
    bases := left;
    for j := 0 to numY
      invariant RowCopies(bases, baseSet.cells, w, done + TileColumn(w, h, numX, numY, i, j))
    {
      ghost var r := TileRegion(w, h, numX, numY, i, j);
      var tile := CutTileRowMajor(baseSet, numX, numY, wD, hD, i, j);
      RowCopiesSnoc(bases, tile, baseSet.cells, w, done, TileColumn(w, h, numX, numY, i, j), r);
      bases := bases + [tile];
    }
  }

  /** Tile `(i, j)`, with its corner and its size chosen as `DivideBase`
      chooses them, copied row by row. */
  method CutTileRowMajor(baseSet: Base, numX: int, numY: int, wD: int, hD: int, i: int, j: int) returns (tile: Base)
    requires baseSet.Shaped() && 1 <= numX && 1 <= numY && 0 <= i < numX && 0 <= j < numY
    requires wD == baseSet.width / numX && hD == baseSet.height / numY
    ensures var r := TileRegion(baseSet.width, baseSet.height, numX, numY, i, j);
            tile.width == r.w && tile.height == r.h && CopyOf(tile.cells, baseSet.cells, baseSet.width, r)
  {
    var w, h := baseSet.width, baseSet.height;
    var curX, curY := i * wD, j * hD;
    var curW, curH;
    if i == numX - 1 {
      if j == numY - 1 {
        curW, curH := w - i * wD, h - j * hD;
      } else {
        curW, curH := w - i * wD, hD;
      }
    } else if j == numY - 1 {
      curW, curH := wD, h - j * hD;
    } else {
      curW, curH := wD, hD;
    }
    assert Region(curX, curY, curW, curH) == TileRegion(w, h, numX, numY, i, j);
    TileInside(w, h, numX, numY, i, j);
    var cells := CopySubMatrixRowMajor(baseSet.cells, w, curX, curY, curW, curH, h);
    tile := ConstructBase(cells, curW, curH);
  }

  /** What the corrected division hands out: tile `(i, j)` at position
      `i*numY + j` fills its dimensions, and reading its value `(x, y)` row
      by row, at `x + width*y`, gives the grid's value at
      `(i*wD + x, j*hD + y)`. */
  lemma RowMajorTilesRead(bases: seq<Base>, base: Base, numX: int, numY: int, i: int, j: int, x: int, y: int)
    requires base.Shaped() && 1 <= numX && 1 <= numY && 0 <= i < numX && 0 <= j < numY
    requires RowCopies(bases, base.cells, base.width, ColumnMajorTiles(base.width, base.height, numX, numY, numX))
    requires var r := TileRegion(base.width, base.height, numX, numY, i, j); 0 <= x < r.w && 0 <= y < r.h
    ensures 0 <= i * numY + j < |bases|
    ensures var t, wD, hD := bases[i * numY + j], base.width / numX, base.height / numY;
            t.Shaped() && 0 <= Index(t.width, x, y) < |t.cells| &&
            0 <= Index(base.width, i * wD + x, j * hD + y) < |base.cells| &&
            t.cells[Index(t.width, x, y)] == base.cells[Index(base.width, i * wD + x, j * hD + y)]
  {
    ColumnMajorTilesAt(base.width, base.height, numX, numY, numX, i, j);
    assert Index(numY, j, i) == i * numY + j;
    var t := bases[i * numY + j];
    var r := TileRegion(base.width, base.height, numX, numY, i, j);
    assert CopyOf(t.cells, base.cells, base.width, r);
    assert t.cells[Index(r.w, x, y)] == base.cells[At(base.width, r.x, r.y, x, y)];
  }

  // ---------------------------------------------------------------------
  // The model has no `== 0` constraint.

  /** No constraint of `cs` is an `== 0`. */
  predicate NoZero(cs: seq<Constraint>) {
    forall k :: 0 <= k < |cs| ==> !cs[k].IsZero?
  }

  lemma {:induction false} ReduceNoZero(queue: seq<Var>, next: nat)
    requires |queue| >= 1
    ensures NoZero(Reduce(queue, next).constraints)
    decreases |queue|
  {
    if |queue| > 1 {
      ReduceNoZero(queue[2..] + [Aux(next)], next + 1);
    }
  }

  /** A loop none of whose iterations emits an `== 0` emits none. */
  lemma {:induction false} SweepNoZero(b: Body, n: int, next: nat)
    requires Runnable(b)
    requires forall k, m: nat :: 0 <= k < n ==> NoZero(Step(b, k, m).constraints)
    ensures NoZero(Sweep(b, n, next).constraints)
    decreases n
  {
    if n > 0 {
      SweepNoZero(b, n - 1, next);
    }
  }

  /** The unfiltered anchor loops emit no `== 0`. */
  lemma AnchorsNoZero(inst: Instance, s: int, w: int, h: int, ok: (int, int) -> bool, next: nat)
    requires 1 <= w && 1 <= h
    ensures NoZero(Anchors(inst, Unfiltered, s, w, h, ok, next).constraints)
  {
    forall i, m: nat | 0 <= i < inst.width - w + 1
      ensures NoZero(Step(ShapeBody(inst, Unfiltered, s, w, h, ok), i, m).constraints)
    {
      forall j, m': nat | 0 <= j < inst.height - h + 1
        ensures NoZero(Step(ColumnBody(inst, Unfiltered, s, w, h, ok, i), j, m').constraints)
      {
        ReduceNoZero(CellVars(FootprintIndices(inst.width, i, j, w, h)), m');
      }
      SweepNoZero(ColumnBody(inst, Unfiltered, s, w, h, ok, i), inst.height - h + 1, m);
    }
    SweepNoZero(ShapeBody(inst, Unfiltered, s, w, h, ok), inst.width - w + 1, next);
  }

  lemma {:induction false} CellInclusionsNoZero(inst: Instance, shapes: seq<Shape>, x: int, y: int, n: int)
    requires n <= |shapes|
    ensures NoZero(CellInclusions(inst, shapes, x, y, n))
    decreases n
  {
    if n > 0 {
      CellInclusionsNoZero(inst, shapes, x, y, n - 1);
    }
  }

  lemma NoZeroAppend(s: seq<Constraint>, t: seq<Constraint>)
    requires NoZero(s) && NoZero(t)
    ensures NoZero(s + t)
  {
  }

  /** A cell's own constraints in the two loops of `Solve` are bounds, never `== 0`. */
  lemma CellConstraintsNoZero(inst: Instance, shapes: seq<Shape>, part: CellPart, x: int, y: int)
    requires part != Combined
    ensures NoZero(CellConstraints(inst, shapes, part, x, y))
  {
    var e := OverlapExpr(inst, shapes, x, y, |shapes|);
    var cell := Cell(Index(inst.width, x, y));
    if part == InclusionOnly {
      CellInclusionsNoZero(inst, shapes, x, y, |shapes|);
      NoZeroAppend(CellInclusions(inst, shapes, x, y, |shapes|), [AtMostSum(cell, e)]);
    }
  }

  lemma {:induction false} CellColumnNoZero(inst: Instance, shapes: seq<Shape>, part: CellPart, x: int, n: int)
    requires part != Combined
    ensures NoZero(CellColumn(inst, shapes, part, x, n))
    decreases n
  {
    if n > 0 {
      CellColumnNoZero(inst, shapes, part, x, n - 1);
      CellConstraintsNoZero(inst, shapes, part, x, n - 1);
      NoZeroAppend(CellColumn(inst, shapes, part, x, n - 1), CellConstraints(inst, shapes, part, x, n - 1));
    }
  }

  lemma {:induction false} CellColumnsNoZero(inst: Instance, shapes: seq<Shape>, part: CellPart, n: int)
    requires part != Combined
    ensures NoZero(CellColumns(inst, shapes, part, n))
    decreases n
  {
    if n > 0 {
      CellColumnsNoZero(inst, shapes, part, n - 1);
      CellColumnNoZero(inst, shapes, part, n - 1, inst.height);
    }
  }

  /** `Solve` adds no `== 0` constraint: a grid of values has no missing
      cell, and the unfiltered anchors are bounded, never zeroed. */
  lemma UnfilteredNoZero(inst: Instance)
    requires WellFormed(inst)
    ensures NoZero(UnfilteredModel(inst))
  {
    var shapes := Shapes(inst);
    var cat := CatalogBody(inst, Unfiltered, shapes);
    forall k, m: nat | 0 <= k < |shapes| ensures NoZero(Step(cat, k, m).constraints) {
      var w, h := shapes[k].width, shapes[k].height;
      AnchorsNoZero(inst, k, w, h, AdmissibleAt(inst, Unfiltered, w, h), m);
    }
    SweepNoZero(cat, |shapes|, 0);
    CellColumnsNoZero(inst, shapes, OverlapOnly, inst.width);
    CellColumnsNoZero(inst, shapes, InclusionOnly, inst.width);
  }

  // ---------------------------------------------------------------------
  // The program's global state.

  /** The globals of `FittingRectangles.cpp`: `minNumCross` and
      `maxRectSize` (set once from the input), the `constraints` log that
      every model of every tile appends to, the current tile (`numNodesX`,
      `numNodesY`, `numNodes` and the values `baseSet` points to) and the
      running `sumScores`. Each `Solve` builds its model in a fresh builder
      handed to the functions as `model`; the block variables are
      `Cell(k)`, the variables of catalog shape `s` are `Rect(s, ax, ay)`.
      `logged` is the log as it was when the current model was begun. */
  class Session {
    const minNumCross: int
    const maxRectSize: int
    var constraints: seq<Constraint>
    var numNodesX: int
    var numNodesY: int
    var numNodes: int
    var baseSet: seq<int>
    var sumScores: int
    ghost var logged: seq<Constraint>

    /** What the current model is built from. */
    function Inst(): Instance
      reads this`baseSet, this`numNodesX, this`numNodesY
    {
      Instance(Kinds(baseSet), numNodesX, numNodesY, minNumCross, maxRectSize)
    }

    /** The current tile's values fill its dimensions. */
    predicate Shaped()
      reads this`baseSet, this`numNodesX, this`numNodesY, this`numNodes
    {
      0 <= numNodesX && 0 <= numNodesY && |baseSet| == numNodesX * numNodesY && numNodes == numNodesX * numNodesY
    }

    /** The log ends with exactly what was added to the current model. */
    ghost predicate Logs(model: Builder)
      reads this`constraints, this`logged, model
    {
      constraints == logged + model.constraints
    }

    /** The state the program starts in, once the input has set the two
        parameters: an empty log, no tile, a zero score. */
    constructor (minNumCross: int, maxRectSize: int)
      ensures this.minNumCross == minNumCross && this.maxRectSize == maxRectSize
      ensures constraints == [] && sumScores == 0 && baseSet == [] && Shaped()
    {
      this.minNumCross := minNumCross;
      this.maxRectSize := maxRectSize;
      constraints := [];
      numNodesX, numNodesY, numNodes := 0, 0, 0;
      baseSet := [];
      sumScores := 0;
      logged := [];
    }

    /** `AddConstraint`: adds `c` to the model and appends it to the log;
        nothing already logged changes. */
    method AddConstraint(model: Builder, c: Constraint)
      requires Logs(model)
      modifies this`constraints, model
      ensures Logs(model)
      ensures constraints == old(constraints) + [c] && model.constraints == old(model.constraints) + [c]
      ensures model.objective == old(model.objective) && model.nextAux == old(model.nextAux)
    {
      model.Add(c);
      constraints := constraints + [c];
      AppendAssoc(logged, old(model.constraints), [c]);
    }

    /** `AddMultConstraints`: a fresh variable and the three inequalities
        that make it the product of `v0` and `v1`, each added through the
        log. */
    method AddMultConstraints(model: Builder, v0: Var, v1: Var) returns (res: Var)
      requires Logs(model)
      modifies this`constraints, model
      ensures Logs(model)
      ensures res == Aux(old(model.nextAux)) && model.nextAux == old(model.nextAux) + 1
      ensures model.constraints == old(model.constraints) + MultConstraints(res, v0, v1)
      ensures model.objective == old(model.objective)
    {
      res := model.NewBoolVar();
      AddConstraint(model, AtMost(res, v0));
      AddConstraint(model, AtMost(res, v1));
      AddConstraint(model, AtLeastSumMinusOne(res, v0, v1));
    }

    /** `AddProductConstraints`: queues the variables of the rectangle's
        cells column by column, `x+i + numNodesX*(y+j)`, then multiplies the
        two at the front and queues the product until one is left; that one
        is the AND of the cells. */
    method AddProductConstraints(model: Builder, x: int, y: int, w: int, h: int) returns (last: Var)
      requires Logs(model) && 1 <= w && 1 <= h
      modifies this`constraints, model
      ensures Logs(model)
      ensures var p := ProductOf(Inst(), x, y, w, h, old(model.nextAux));
              last == p.result && model.constraints == old(model.constraints) + p.constraints && model.nextAux == p.next
      ensures model.objective == old(model.objective)
    {
      var mulQueue := QueueCells(x, y, w, h);
      last := ReduceQueue(model, mulQueue);
    }

    /** The first loops of `AddProductConstraints`: the rectangle's cell
        variables, column by column. */
    method QueueCells(x: int, y: int, w: int, h: int) returns (mulQueue: seq<Var>)
      requires 0 <= w && 0 <= h
      ensures mulQueue == CellVars(FootprintIndices(numNodesX, x, y, w, h))
    {
      mulQueue := [];
      for i := 0 to w
        invariant mulQueue == CellVars(FootprintIndices(numNodesX, x, y, i, h))
      {
        ghost var done := FootprintIndices(numNodesX, x, y, i, h);
        assert done + ColumnIndices(numNodesX, x, y, i, 0) == done;
        for j := 0 to h
          invariant mulQueue == CellVars(done + ColumnIndices(numNodesX, x, y, i, j))
        {
          ColumnIndicesSnoc(numNodesX, x, y, i, j);
          CellVarsSnoc(done + ColumnIndices(numNodesX, x, y, i, j), x + i + numNodesX * (y + j));
          AppendAssoc(done, ColumnIndices(numNodesX, x, y, i, j), [x + i + numNodesX * (y + j)]);
          mulQueue := mulQueue + [Cell(x + i + numNodesX * (y + j))];
        }
      }
    }

    /** The last loop of `AddProductConstraints`: multiplies the two
        variables at the front of the queue and queues the product until one
        is left. */
    method ReduceQueue(model: Builder, queue: seq<Var>) returns (last: Var)
      requires Logs(model) && |queue| >= 1
      modifies this`constraints, model
      ensures Logs(model)
      ensures var p := Reduce(queue, old(model.nextAux));
              last == p.result && model.constraints == old(model.constraints) + p.constraints && model.nextAux == p.next
      ensures model.objective == old(model.objective)
    {
      var mulQueue := queue;
      ghost var n0 := model.nextAux;
      ghost var added: seq<Constraint> := [];
      while |mulQueue| > 1
        invariant |mulQueue| >= 1
        invariant Logs(model)
        invariant model.constraints == old(model.constraints) + added
        invariant var p := Reduce(mulQueue, model.nextAux);
                  Reduce(queue, n0) == Product(p.result, added + p.constraints, p.next)
        invariant model.objective == old(model.objective)
        decreases |mulQueue|
      {
        mulQueue, added := MultiplyFront(model, mulQueue, queue, n0, old(model.constraints), added);
      }
      last := mulQueue[0];
    }

    /** One iteration of that loop: pops the two front variables, adds
        their product and pushes it. What the loop has added so far,
        followed by the reduction of what is queued, stays the reduction of
        the whole `queue`. */
    method MultiplyFront(model: Builder, q: seq<Var>, ghost queue: seq<Var>, ghost n0: nat, ghost c0: seq<Constraint>,
                         ghost added: seq<Constraint>) returns (mulQueue: seq<Var>, ghost added': seq<Constraint>)
      requires Logs(model) && |q| > 1 && |queue| >= 1
      requires model.constraints == c0 + added
      requires var p := Reduce(q, model.nextAux);
               Reduce(queue, n0) == Product(p.result, added + p.constraints, p.next)
      modifies this`constraints, model
      ensures Logs(model)
      ensures mulQueue == q[2..] + [Aux(old(model.nextAux))]
      ensures model.constraints == old(model.constraints) + MultConstraints(Aux(old(model.nextAux)), q[0], q[1])
      ensures model.nextAux == old(model.nextAux) + 1 && model.objective == old(model.objective)
      ensures model.constraints == c0 + added'
      ensures var p := Reduce(mulQueue, model.nextAux);
              Reduce(queue, n0) == Product(p.result, added' + p.constraints, p.next)
    {
      ghost var n := model.nextAux;
      mulQueue := q;
      var v0 := mulQueue[0];
      mulQueue := mulQueue[1..];
      var v1 := mulQueue[0];
      mulQueue := mulQueue[1..];
      var mult := AddMultConstraints(model, v0, v1);
      mulQueue := mulQueue + [mult];
      assert mulQueue == q[2..] + [mult];
      AppendAssoc(c0, added, MultConstraints(mult, v0, v1));
      added' := added + MultConstraints(mult, v0, v1);
      ReduceInvariantStep(queue, n0, added, q, n, mulQueue, model.nextAux, added');
    }

    /** `ComputeSum`: the number of crossings, non-zero values, in the
        rectangle, counted column by column; between 0 and `w*h`. */
    method ComputeSum(x: int, y: int, w: int, h: int) returns (sum: int)
      requires Shaped() && Inside(Inst(), x, y, w, h)
      ensures sum == SpecialCount(Inst(), x, y, w, h)
      ensures 0 <= sum <= w * h
    {
      ghost var inst := Inst();
      assert WellFormed(inst) && inst.width == numNodesX && inst.height == numNodesY;
      sum := 0;
      for i := 0 to w
        invariant sum == SpecialCount(inst, x, y, i, h)
      {
        var s := SumColumn(x, y, i, h);
        sum := sum + s;
      }
      SpecialCountIsCount(inst, x, y, w, h);
    }

    /** The inner loop of `ComputeSum`: the crossings of column `x + i`. */
    method SumColumn(x: int, y: int, i: int, h: int) returns (s: int)
      requires Shaped() && 0 <= x + i < numNodesX && 0 <= y && 0 <= h && y + h <= numNodesY
      ensures s == ColumnSpecials(Inst(), x, y, i, h)
    {
      ghost var inst := Inst();
      assert WellFormed(inst) && 0 <= x + i < inst.width && y + h <= inst.height;
      s := 0;
      for j := 0 to h
        invariant s == ColumnSpecials(inst, x, y, i, j)
      {
        IndexInRange(numNodesX, numNodesY, x + i, y + j);
        assert KindAt(inst, x, y, i, j) == KindOf(baseSet[x + i + numNodesX * (y + j)]);
        if baseSet[x + i + numNodesX * (y + j)] != 0 {
          s := s + 1;
        }
      }
    }

    /** The body of `AddRectangle`'s loops, anchor `(ax, ay)`: the product
        of the rectangle's cells, then `rect <= product` and `rect <= 1`
        or `rect <= 0` by whether the rectangle has `minNumCross`
        crossings, each added to the model and the log. */
    method AddAnchor(model: Builder, ghost inst: Instance, s: int, w: int, h: int, ax: int, ay: int)
      requires Shaped() && inst == Inst() && Logs(model) && 1 <= w && 1 <= h && IsAnchor(inst, w, h, ax, ay)
      modifies this`constraints, model
      ensures Logs(model)
      ensures var e := AnchorConstraints(inst, Unfiltered, s, w, h, ax, ay,
                                         AdmissibleAt(inst, Unfiltered, w, h)(ax, ay), old(model.nextAux));
              model.constraints == old(model.constraints) + e.constraints && model.nextAux == e.next
      ensures model.objective == old(model.objective)
    {
      ghost var c0 := model.constraints;
      var product := AddProductConstraints(model, ax, ay, w, h);
      ghost var p := model.constraints[|c0|..];
      assert model.constraints == c0 + p;
      var c := AtMost(Rect(s, ax, ay), product);
      AddConstraint(model, c);
      var sum := ComputeSum(ax, ay, w, h);
      var d := AtMostConst(Rect(s, ax, ay), if sum >= minNumCross then 1 else 0);
      AddConstraint(model, d);
      AppendAssoc(c0, p, [c]);
      AppendAssoc(c0, p + [c], [d]);
      assert (p + [c]) + [d] == p + [c, d];
    }

    /** The inner anchor loop of `AddRectangle`: the anchors of column `ax`. */
    method AddAnchorColumn(model: Builder, ghost inst: Instance, s: int, w: int, h: int, ax: int)
      requires Shaped() && inst == Inst() && Logs(model) && 1 <= w && 1 <= h && 0 <= ax <= numNodesX - w
      modifies this`constraints, model
      ensures Logs(model)
      ensures var e := Sweep(ColumnBody(inst, Unfiltered, s, w, h, AdmissibleAt(inst, Unfiltered, w, h), ax),
                             inst.height - h + 1, old(model.nextAux));
              model.constraints == old(model.constraints) + e.constraints && model.nextAux == e.next
      ensures model.objective == old(model.objective)
    {
      var matrixH := numNodesY - h + 1;
      assert WellFormed(inst) && inst.width == numNodesX && inst.height == numNodesY;
      ghost var ok := AdmissibleAt(inst, Unfiltered, w, h);
      ghost var b := ColumnBody(inst, Unfiltered, s, w, h, ok, ax);
      ghost var c0, n0 := model.constraints, model.nextAux;
      var j := 0;
      while j < matrixH
        invariant 0 <= j <= if matrixH < 0 then 0 else matrixH
        invariant Shaped() && inst == Inst() && Logs(model)
        invariant c0 + Sweep(b, j, n0).constraints == model.constraints && Sweep(b, j, n0).next == model.nextAux
        invariant model.objective == old(model.objective)
      {
        ColumnStep(inst, Unfiltered, s, w, h, ok, ax, j, n0);
        AppendAssoc(c0, Sweep(b, j, n0).constraints,
                    AnchorConstraints(inst, Unfiltered, s, w, h, ax, j, ok(ax, j), Sweep(b, j, n0).next).constraints);
        AddAnchor(model, inst, s, w, h, ax, j);
        j := j + 1;
      }
      assert Sweep(b, j, n0) == Sweep(b, inst.height - h + 1, n0);
    }

    /** `AddRectangle`: for every anchor of the `w` by `h` shape `s`, column
        by column, the two constraints of `AddAnchor`; no anchor is left
        out, whatever its crossings. */
    method AddRectangle(model: Builder, s: int, w: int, h: int)
      requires Shaped() && Logs(model) && 1 <= w && 1 <= h
      modifies this`constraints, model
      ensures Logs(model)
      ensures var e := ShapeConstraints(Inst(), Unfiltered, s, w, h, old(model.nextAux));
              model.constraints == old(model.constraints) + e.constraints && model.nextAux == e.next
      ensures model.objective == old(model.objective)
    {
      var matrixW := numNodesX - w + 1;
      ghost var inst := Inst();
      assert WellFormed(inst) && inst.width == numNodesX && inst.height == numNodesY;
      ghost var ok := AdmissibleAt(inst, Unfiltered, w, h);
      ghost var b := ShapeBody(inst, Unfiltered, s, w, h, ok);
      ghost var c0, n0 := model.constraints, model.nextAux;
      var i := 0;
      while i < matrixW
        invariant 0 <= i <= if matrixW < 0 then 0 else matrixW
        invariant Logs(model)
        invariant model.constraints == c0 + Sweep(b, i, n0).constraints && model.nextAux == Sweep(b, i, n0).next
        invariant model.objective == old(model.objective)
      {
        ShapeStep(inst, Unfiltered, s, w, h, ok, i, n0);
        AppendAssoc(c0, Sweep(b, i, n0).constraints,
                    Sweep(ColumnBody(inst, Unfiltered, s, w, h, ok, i), inst.height - h + 1, Sweep(b, i, n0).next).constraints);
        AddAnchorColumn(model, inst, s, w, h, i);
        i := i + 1;
      }
    }

    /** `ConstructVarsArrays`: the variables of shape `s` paired with its
        size. */
    method ConstructVarsArrays(model: Builder, s: int, w: int, h: int) returns (r: Shape)
      requires Shaped() && Logs(model) && 1 <= w && 1 <= h
      modifies this`constraints, model
      ensures Logs(model) && r == Shape(w, h)
      ensures var e := ShapeConstraints(Inst(), Unfiltered, s, w, h, old(model.nextAux));
              model.constraints == old(model.constraints) + e.constraints && model.nextAux == e.next
      ensures model.objective == old(model.objective)
    {
      AddRectangle(model, s, w, h);
      r := Shape(w, h);
    }

    /** `AddAllRectangles`: the catalog loop, every `(i, j)` with
        `i*j <= maxRectSize`, widths first, numbered in order. */
    method AddAllRectangles(model: Builder) returns (varsArrays: seq<Shape>)
      requires Shaped() && Logs(model)
      modifies this`constraints, model
      ensures Logs(model) && varsArrays == Catalog(maxRectSize)
      ensures var e := ShapesConstraints(Inst(), Unfiltered, Shapes(Inst()), old(model.nextAux));
              model.constraints == old(model.constraints) + e.constraints && model.nextAux == e.next
      ensures model.objective == old(model.objective)
    {
      ghost var c0, n0 := model.constraints, model.nextAux;
      varsArrays := [];
      var i := 1;
      while i <= maxRectSize
        invariant 1 <= i <= if maxRectSize < 1 then 1 else maxRectSize + 1
        invariant Logs(model) && varsArrays == CatalogUpTo(maxRectSize, i - 1) && PositiveShapes(varsArrays)
        invariant var e := ShapesConstraints(Inst(), Unfiltered, varsArrays, n0);
                  model.constraints == c0 + e.constraints && model.nextAux == e.next
        invariant model.objective == old(model.objective)
      {
        varsArrays := AddShapesOfWidth(model, i, varsArrays, c0, n0);
        i := i + 1;
      }
    }

    /** The inner loop of the catalog: the shapes `i` wide. */
    method AddShapesOfWidth(model: Builder, i: int, shapes: seq<Shape>, ghost c0: seq<Constraint>, ghost n0: nat)
      returns (varsArrays: seq<Shape>)
      requires Shaped() && Logs(model) && 1 <= i && PositiveShapes(shapes)
      requires var e := ShapesConstraints(Inst(), Unfiltered, shapes, n0);
               model.constraints == c0 + e.constraints && model.nextAux == e.next
      modifies this`constraints, model
      ensures Logs(model) && varsArrays == shapes + CatalogRow(maxRectSize, i, maxRectSize)
      ensures PositiveShapes(varsArrays)
      ensures var e := ShapesConstraints(Inst(), Unfiltered, varsArrays, n0);
              model.constraints == c0 + e.constraints && model.nextAux == e.next
      ensures model.objective == old(model.objective)
    {
      varsArrays := shapes;
      var j := 1;
      while j <= maxRectSize
        invariant 1 <= j <= if maxRectSize < 1 then 1 else maxRectSize + 1
        invariant Logs(model) && varsArrays == shapes + CatalogRow(maxRectSize, i, j - 1)
        invariant PositiveShapes(varsArrays)
        invariant var e := ShapesConstraints(Inst(), Unfiltered, varsArrays, n0);
                  model.constraints == c0 + e.constraints && model.nextAux == e.next
        invariant model.objective == old(model.objective)
      {
        CatalogRowSnoc(maxRectSize, i, j - 1);
        if i * j <= maxRectSize {
          assert PositiveShapes(varsArrays + [Shape(i, j)]);
          ShapesSnoc(Inst(), Unfiltered, varsArrays, Shape(i, j), n0);
          ghost var e := ShapesConstraints(Inst(), Unfiltered, varsArrays, n0);
          AppendAssoc(c0, e.constraints, ShapeConstraints(Inst(), Unfiltered, |varsArrays|, i, j, e.next).constraints);
          var r := ConstructVarsArrays(model, |varsArrays|, i, j);
          varsArrays := varsArrays + [r];
        }
        j := j + 1;
      }
    }

    /** `ConstructOverlapExpr`: for cell `(x, y)` and the `w0` by `h0` shape
        `s`, walks the offsets `(i, j)` of the shape and sums the anchors
        `(x - i, y - j)` in range; it adds no constraint. */
    method ConstructOverlapExpr(x: int, y: int, s: int, w0: int, h0: int) returns (expr: seq<Var>)
      ensures expr == ShapeVars(s, Covering(Inst(), w0, h0, x, y))
    {
      ghost var inst := Inst();
      expr := [];
      var i := 0;
      while i < w0
        invariant 0 <= i <= if w0 < 0 then 0 else w0
        invariant expr == ShapeVars(s, CoverColumns(inst, w0, h0, x, y, i))
      {
        expr := OverlapColumn(x, y, s, w0, h0, i, CoverColumns(inst, w0, h0, x, y, i), expr);
        i := i + 1;
      }
    }

    /** The inner loop of `ConstructOverlapExpr`: the offsets `(i, j)` of
        column `i` of the shape, after the anchors `done` of the earlier
        columns. */
    method OverlapColumn(x: int, y: int, s: int, w0: int, h0: int, i: int, ghost done: seq<(int, int)>,
                         exprIn: seq<Var>) returns (expr: seq<Var>)
      requires exprIn == ShapeVars(s, done)
      ensures expr == ShapeVars(s, done + CoverColumn(Inst(), w0, h0, x, y, i, h0))
    {
      ghost var inst := Inst();
      expr := exprIn;
      assert done + CoverColumn(inst, w0, h0, x, y, i, 0) == done;
      var j := 0;
      while j < h0
        invariant 0 <= j <= if h0 < 0 then 0 else h0
        invariant expr == ShapeVars(s, done + CoverColumn(inst, w0, h0, x, y, i, j))
      {
        if x - i >= 0 && x - i < numNodesX - w0 + 1 && y - j >= 0 && y - j < numNodesY - h0 + 1 {
          ShapeVarsSnoc(s, done + CoverColumn(inst, w0, h0, x, y, i, j), (x - i, y - j));
          AppendAssoc(done, CoverColumn(inst, w0, h0, x, y, i, j), [(x - i, y - j)]);
          expr := expr + [Rect(s, x - i, y - j)];
        } else {
          assert CoverColumn(inst, w0, h0, x, y, i, j + 1) == CoverColumn(inst, w0, h0, x, y, i, j);
        }
        j := j + 1;
      }
    }

    /** `ConstructInclusionConstraintsAndExpr`: the same walk as
        `ConstructOverlapExpr`, adding `cell >= rect` for each anchor found
        to the model and the log. */
    method ConstructInclusionConstraintsAndExpr(model: Builder, x: int, y: int, s: int, w: int, h: int)
      returns (expr: seq<Var>)
      requires Logs(model)
      modifies this`constraints, model
      ensures Logs(model)
      ensures expr == ShapeVars(s, Covering(Inst(), w, h, x, y))
      ensures model.constraints == old(model.constraints) + Inclusions(Cell(Index(numNodesX, x, y)), expr)
      ensures model.objective == old(model.objective) && model.nextAux == old(model.nextAux)
    {
      ghost var inst := Inst();
      ghost var c0 := model.constraints;
      expr := [];
      var i := 0;
      while i < w
        invariant 0 <= i <= if w < 0 then 0 else w
        invariant Logs(model)
        invariant expr == ShapeVars(s, CoverColumns(inst, w, h, x, y, i))
        invariant model.constraints == c0 + Inclusions(Cell(Index(numNodesX, x, y)), expr)
        invariant model.objective == old(model.objective) && model.nextAux == old(model.nextAux)
      {
        expr := InclusionColumn(model, x, y, s, w, h, i, CoverColumns(inst, w, h, x, y, i), c0, expr);
        i := i + 1;
      }
    }

    /** The inner loop of `ConstructInclusionConstraintsAndExpr`. */
    method InclusionColumn(model: Builder, x: int, y: int, s: int, w: int, h: int, i: int, ghost done: seq<(int, int)>,
                           ghost c0: seq<Constraint>, exprIn: seq<Var>) returns (expr: seq<Var>)
      requires Logs(model)
      requires exprIn == ShapeVars(s, done)
      requires model.constraints == c0 + Inclusions(Cell(Index(numNodesX, x, y)), exprIn)
      modifies this`constraints, model
      ensures Logs(model)
      ensures expr == ShapeVars(s, done + CoverColumn(Inst(), w, h, x, y, i, h))
      ensures model.constraints == c0 + Inclusions(Cell(Index(numNodesX, x, y)), expr)
      ensures model.objective == old(model.objective) && model.nextAux == old(model.nextAux)
    {
      ghost var inst := Inst();
      var cell := Cell(x + numNodesX * y);
      expr := exprIn;
      assert done + CoverColumn(inst, w, h, x, y, i, 0) == done;
      var j := 0;
      while j < h
        invariant 0 <= j <= if h < 0 then 0 else h
        invariant Logs(model)
        invariant expr == ShapeVars(s, done + CoverColumn(inst, w, h, x, y, i, j))
        invariant model.constraints == c0 + Inclusions(cell, expr)
        invariant model.objective == old(model.objective) && model.nextAux == old(model.nextAux)
      {
        if x - i >= 0 && x - i < numNodesX - w + 1 && y - j >= 0 && y - j < numNodesY - h + 1 {
          ShapeVarsSnoc(s, done + CoverColumn(inst, w, h, x, y, i, j), (x - i, y - j));
          InclusionsSnoc(cell, expr, Rect(s, x - i, y - j));
          AppendAssoc(c0, Inclusions(cell, expr), [AtLeast(cell, Rect(s, x - i, y - j))]);
          AppendAssoc(done, CoverColumn(inst, w, h, x, y, i, j), [(x - i, y - j)]);
          AddConstraint(model, AtLeast(cell, Rect(s, x - i, y - j)));
          expr := expr + [Rect(s, x - i, y - j)];
        } else {
          assert CoverColumn(inst, w, h, x, y, i, j + 1) == CoverColumn(inst, w, h, x, y, i, j);
        }
        j := j + 1;
      }
    }

    /** The first cell loop of `Solve`: for every cell, column by column,
        `expr <= 1` over the anchors of every shape covering it. */
    method AddOverlapConstraints(model: Builder, varsArray: seq<Shape>)
      requires Shaped() && Logs(model)
      modifies this`constraints, model
      ensures Logs(model)
      ensures model.constraints == old(model.constraints) + CellSweep(Inst(), varsArray, OverlapOnly)
      ensures model.objective == old(model.objective) && model.nextAux == old(model.nextAux)
    {
      ghost var inst := Inst();
      ghost var c0 := model.constraints;
      for i := 0 to numNodesX
        invariant Shaped() && Inst() == inst && Logs(model)
        invariant model.constraints == c0 + CellColumns(inst, varsArray, OverlapOnly, i)
        invariant model.objective == old(model.objective) && model.nextAux == old(model.nextAux)
      {
        ghost var done := CellColumns(inst, varsArray, OverlapOnly, i);
        OverlapCellColumn(model, varsArray, i);
        AppendAssoc(c0, done, CellColumn(inst, varsArray, OverlapOnly, i, inst.height));
      }
    }

    /** Its inner loop: the cells of column `x`. */
    method OverlapCellColumn(model: Builder, varsArray: seq<Shape>, x: int)
      requires Shaped() && Logs(model)
      modifies this`constraints, model
      ensures Logs(model)
      ensures model.constraints == old(model.constraints) + CellColumn(Inst(), varsArray, OverlapOnly, x, numNodesY)
      ensures model.objective == old(model.objective) && model.nextAux == old(model.nextAux)
    {
      ghost var inst := Inst();
      ghost var c0 := model.constraints;
      for j := 0 to numNodesY
        invariant Shaped() && Inst() == inst && Logs(model)
        invariant model.constraints == c0 + CellColumn(inst, varsArray, OverlapOnly, x, j)
        invariant model.objective == old(model.objective) && model.nextAux == old(model.nextAux)
      {
        ghost var done := CellColumn(inst, varsArray, OverlapOnly, x, j);
        CellOverlap(model, varsArray, x, j);
        AppendAssoc(c0, done, CellConstraints(inst, varsArray, OverlapOnly, x, j));
      }
    }

    /** Its body, cell `(x, y)`: the sum of every shape's covering anchors,
        bounded by 1. */
    method CellOverlap(model: Builder, varsArray: seq<Shape>, x: int, y: int)
      requires Logs(model)
      modifies this`constraints, model
      ensures Logs(model)
      ensures model.constraints == old(model.constraints) + CellConstraints(Inst(), varsArray, OverlapOnly, x, y)
      ensures model.objective == old(model.objective) && model.nextAux == old(model.nextAux)
    {
      ghost var inst := Inst();
      var expr: seq<Var> := [];
      for k := 0 to |varsArray|
        invariant expr == OverlapExpr(inst, varsArray, x, y, k)
        invariant Logs(model) && model.constraints == old(model.constraints)
        invariant model.objective == old(model.objective) && model.nextAux == old(model.nextAux)
      {
        var w, h := varsArray[k].width, varsArray[k].height;
        var e := ConstructOverlapExpr(x, y, k, w, h);
        expr := expr + e;
      }
      AddConstraint(model, SumAtMostOne(expr));
    }

    /** The second cell loop of `Solve`: for every cell, column by column,
        `cell >= rect` for every covering anchor of every shape, then
        `cell <= expr` over them. */
    method AddInclusionConstraints(model: Builder, varsArray: seq<Shape>)
      requires Shaped() && Logs(model)
      modifies this`constraints, model
      ensures Logs(model)
      ensures model.constraints == old(model.constraints) + CellSweep(Inst(), varsArray, InclusionOnly)
      ensures model.objective == old(model.objective) && model.nextAux == old(model.nextAux)
    {
      ghost var inst := Inst();
      ghost var c0 := model.constraints;
      for i := 0 to numNodesX
        invariant Shaped() && Inst() == inst && Logs(model)
        invariant model.constraints == c0 + CellColumns(inst, varsArray, InclusionOnly, i)
        invariant model.objective == old(model.objective) && model.nextAux == old(model.nextAux)
      {
        ghost var done := CellColumns(inst, varsArray, InclusionOnly, i);
        InclusionCellColumn(model, varsArray, i);
        AppendAssoc(c0, done, CellColumn(inst, varsArray, InclusionOnly, i, inst.height));
      }
    }

    /** Its inner loop: the cells of column `x`. */
    method InclusionCellColumn(model: Builder, varsArray: seq<Shape>, x: int)
      requires Shaped() && Logs(model)
      modifies this`constraints, model
      ensures Logs(model)
      ensures model.constraints == old(model.constraints) + CellColumn(Inst(), varsArray, InclusionOnly, x, numNodesY)
      ensures model.objective == old(model.objective) && model.nextAux == old(model.nextAux)
    {
      ghost var inst := Inst();
      ghost var c0 := model.constraints;
      for j := 0 to numNodesY
        invariant Shaped() && Inst() == inst && Logs(model)
        invariant model.constraints == c0 + CellColumn(inst, varsArray, InclusionOnly, x, j)
        invariant model.objective == old(model.objective) && model.nextAux == old(model.nextAux)
      {
        ghost var done := CellColumn(inst, varsArray, InclusionOnly, x, j);
        CellInclusion(model, varsArray, x, j);
        AppendAssoc(c0, done, CellConstraints(inst, varsArray, InclusionOnly, x, j));
      }
    }

    /** Its body, cell `(x, y)`. */
    method CellInclusion(model: Builder, varsArray: seq<Shape>, x: int, y: int)
      requires Logs(model)
      modifies this`constraints, model
      ensures Logs(model)
      ensures model.constraints == old(model.constraints) + CellConstraints(Inst(), varsArray, InclusionOnly, x, y)
      ensures model.objective == old(model.objective) && model.nextAux == old(model.nextAux)
    {
      ghost var inst := Inst();
      ghost var c0 := model.constraints;
      var expr: seq<Var> := [];
      for k := 0 to |varsArray|
        invariant Logs(model)
        invariant expr == OverlapExpr(inst, varsArray, x, y, k)
        invariant model.constraints == c0 + CellInclusions(inst, varsArray, x, y, k)
        invariant model.objective == old(model.objective) && model.nextAux == old(model.nextAux)
      {
        var w, h := varsArray[k].width, varsArray[k].height;
        var e := ConstructInclusionConstraintsAndExpr(model, x, y, k, w, h);
        AppendAssoc(c0, CellInclusions(inst, varsArray, x, y, k), Inclusions(Cell(Index(inst.width, x, y)), e));
        expr := expr + e;
      }
      ghost var incl := CellInclusions(inst, varsArray, x, y, |varsArray|);
      AppendAssoc(c0, incl, [AtMostSum(Cell(x + numNodesX * y), expr)]);
      AddConstraint(model, AtMostSum(Cell(x + numNodesX * y), expr));
    }

    /** The objective of `Solve`: maximize the sum of all block variables. */
    method AddObjective(model: Builder)
      requires Shaped()
      modifies model
      ensures model.objective == CellRange(numNodes)
      ensures model.constraints == old(model.constraints) && model.nextAux == old(model.nextAux)
    {
      var objExpr: seq<Var> := [];
      for i := 0 to numNodes
        invariant objExpr == CellRange(i)
      {
        objExpr := objExpr + [Cell(i)];
      }
      model.Maximize(objExpr);
    }

    /** `Solve`: in a fresh model, the rectangles of every catalog shape,
        then the two cell loops and the objective: the whole unfiltered
        model of the current tile, which is also appended to the log. The
        library's search is not modelled: whether it found a solution and
        the best objective value are its inputs, and the value is added to
        the score when there is one. */
    method Solve(solved: bool, bestObjValue: int) returns (model: Builder)
      requires Shaped()
      modifies this`constraints, this`logged, this`sumScores
      ensures fresh(model)
      ensures model.constraints == UnfilteredModel(Inst())
      ensures constraints == old(constraints) + UnfilteredModel(Inst())
      ensures model.objective == CellRange(numNodes)
      ensures sumScores == old(sumScores) + (if solved then bestObjValue else 0)
    {
      model := new Builder();
      logged := constraints;
      assert constraints == logged + [];
      var varsArray := AddAllRectangles(model);
      ghost var rects := model.constraints;
      assert rects == ShapesConstraints(Inst(), Unfiltered, Shapes(Inst()), 0).constraints by {
        assert rects == [] + ShapesConstraints(Inst(), Unfiltered, Shapes(Inst()), 0).constraints;
      }
      AddOverlapConstraints(model, varsArray);
      AddInclusionConstraints(model, varsArray);
      AddObjective(model);
      if solved {
        sumScores := sumScores + bestObjValue;
      }
    }

    /** The body of the program's loop over the tiles: the tile becomes
        the current one and is solved. The model built is the tile's own
        unfiltered model, whatever tiles came before; only the log and the
        score carry over. */
    method SolveTile(base: Base, solved: bool, bestObjValue: int) returns (model: Builder)
      requires base.Shaped()
      modifies this`numNodesX, this`numNodesY, this`numNodes, this`baseSet, this`constraints, this`logged, this`sumScores
      ensures numNodesX == base.width && numNodesY == base.height && numNodes == base.width * base.height
      ensures baseSet == base.cells && Shaped()
      ensures fresh(model)
      ensures var inst := Instance(Kinds(base.cells), base.width, base.height, minNumCross, maxRectSize);
              model.constraints == UnfilteredModel(inst) && constraints == old(constraints) + UnfilteredModel(inst)
      ensures model.objective == CellRange(base.width * base.height)
      ensures sumScores == old(sumScores) + (if solved then bestObjValue else 0)
    {
      numNodesX := base.width;
      numNodesY := base.height;
      numNodes := numNodesX * numNodesY;
      baseSet := base.cells;
      model := Solve(solved, bestObjValue);
    }
  }
}
