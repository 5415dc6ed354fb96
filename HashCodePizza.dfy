/** `HashCodePizza.cpp`: the grid, its division into tiles, and the
    sub-problem object that builds the rectangle-covering model of one tile
    and keeps its own log of every constraint it adds. */
module HashCodePizza {
  import opened LinearModel
  import opened Linearization
  import opened Indexing
  import opened Placement
  import opened Selection
  import opened Steps
  import opened Tiling

  // ---------------------------------------------------------------------
  // Blocks and the grid.

  /** The three block types. */
  datatype Block = Regular | Ham | DoNotExists

  /** How the model sees a block. */
  function KindOf(b: Block): Kind {
    match b
    case DoNotExists => Absent
    case Ham => Special
    case Regular => Plain
  }

  function Kinds(bs: seq<Block>): (r: seq<Kind>)
    ensures |r| == |bs| && forall k :: 0 <= k < |bs| ==> r[k] == KindOf(bs[k])
  {
    seq(|bs|, k requires 0 <= k < |bs| => KindOf(bs[k]))
  }

  /** `Base`: the blocks row by row, block `(i, j)` at `i + width*j`. The
      grid is never changed once built, so it is a value. */
  datatype Base = Base(blocks: seq<Block>, width: int, height: int) {
    /** The blocks fill a `width` by `height` grid. */
    predicate Shaped() {
      0 <= width && 0 <= height && |blocks| == width * height
    }

    function Size(): int {
      |blocks|
    }

    /** `accessIndex(i, j)`: the position of block `(i, j)`, inside the
        blocks for every cell of the grid. */
    function AccessIndex(i: int, j: int): (k: int)
      ensures Shaped() && 0 <= i < width && 0 <= j < height ==> 0 <= k < |blocks|
    {
      AccessInRange(i, j);
      Index(width, i, j)
    }

    /** The position of a cell of the grid lies inside the blocks. */
    lemma AccessInRange(i: int, j: int)
      ensures Shaped() && 0 <= i < width && 0 <= j < height ==> 0 <= Index(width, i, j) < |blocks|
    {
      if Shaped() && 0 <= i < width && 0 <= j < height {
        IndexInRange(width, height, i, j);
      }
    }

    /** `access(i, j)`: block `(i, j)` of the grid. */
    function Access(i: int, j: int): (b: Block)
      requires Shaped() && 0 <= i < width && 0 <= j < height
      ensures b == blocks[AccessIndex(i, j)]
      ensures b == blocks[Index(width, i, j)]
    {
      blocks[AccessIndex(i, j)]
    }
  }

  /** Distinct cells of a grid have distinct positions. */
  lemma AccessIndexInjective(base: Base, i: int, j: int, i': int, j': int)
    requires base.Shaped() && 0 <= i < base.width && 0 <= j < base.height
    requires 0 <= i' < base.width && 0 <= j' < base.height
    ensures base.AccessIndex(i, j) == base.AccessIndex(i', j') <==> i == i' && j == j'
  {
    if base.AccessIndex(i, j) == base.AccessIndex(i', j') {
      IndexInjective(base.width, i, j, i', j');
    }
  }

  /** The sub-problem of a grid, as a pure value. */
  function InstanceOf(base: Base, minNumCross: int, maxRectSize: int): (inst: Instance)
    requires base.Shaped()
    ensures WellFormed(inst) && inst.width == base.width && inst.height == base.height
    ensures forall k :: 0 <= k < |base.blocks| ==> inst.kinds[k] == KindOf(base.blocks[k])
  {
    Instance(Kinds(base.blocks), base.width, base.height, minNumCross, maxRectSize)
  }

  // ---------------------------------------------------------------------
  // Dividing the grid into tiles.

  /** `CopySubMatrix`: the `w` by `h` region at `(x, y)`, row by row, block
      `(i, j)` of the region at `i + w*j`. */
  method CopySubMatrix(base: Base, x: int, y: int, w: int, h: int) returns (res: seq<Block>)
    requires base.Shaped()
    requires 0 <= x && 0 <= w && x + w <= base.width && 0 <= y && 0 <= h && y + h <= base.height
    ensures InRange(RowMajorIndices(base.width, x, y, w, h), |base.blocks|)
    ensures res == RowMajorCopy(base.blocks, base.width, Region(x, y, w, h))
    ensures CopyOf(res, base.blocks, base.width, Region(x, y, w, h))
  {
    RowMajorCopyOf(base.blocks, base.width, base.height, Region(x, y, w, h));
    res := [];
    for j := y to y + h
      invariant InRange(RowMajorIndices(base.width, x, y, w, j - y), |base.blocks|)
      invariant res == Gather(base.blocks, RowMajorIndices(base.width, x, y, w, j - y))
    {
      ghost var done := RowMajorIndices(base.width, x, y, w, j - y);
      for i := x to x + w
        invariant InRange(done + RowIndices(base.width, x, y, j - y, i - x), |base.blocks|)
        invariant res == Gather(base.blocks, done + RowIndices(base.width, x, y, j - y, i - x))
      {
        var b := base.Access(i, j);
        ghost var idx := done + RowIndices(base.width, x, y, j - y, i - x);
        GatherSnoc(base.blocks, idx, Index(base.width, i, j));
        RowIndicesSnoc(base.width, x, y, j - y, i - x);
        assert idx + [Index(base.width, i, j)] == done + RowIndices(base.width, x, y, j - y, i + 1 - x);
        res := res + [b];
      }
      RowMajorInGrid(base.width, base.height, x, y, w, j + 1 - y);
    }
  }

  /** `bases` holds grids copied from the regions `rs` of a grid `width`
      cells wide: grid `k` is as wide and as high as region `k` and holds
      its cells row by row. */
  ghost predicate CopiesRegions(bases: seq<Base>, cells: seq<Block>, width: int, rs: seq<Region>) {
    |bases| == |rs| &&
    forall k :: 0 <= k < |rs| ==>
      bases[k].width == rs[k].w && bases[k].height == rs[k].h && CopyOf(bases[k].blocks, cells, width, rs[k])
  }

  /** One more tile of a column of tiles. */
  lemma CopiesColumnSnoc(bases: seq<Base>, tile: Base, cells: seq<Block>, width: int,
                         done: seq<Region>, column: seq<Region>, r: Region)
    requires CopiesRegions(bases, cells, width, done + column)
    requires tile.width == r.w && tile.height == r.h && CopyOf(tile.blocks, cells, width, r)
    ensures CopiesRegions(bases + [tile], cells, width, done + (column + [r]))
  {
    AppendAssoc(done, column, [r]);
    var rs := done + column;
    assert forall k :: 0 <= k < |rs| ==> (bases + [tile])[k] == bases[k] && (rs + [r])[k] == rs[k];
  }

  /** `DivideBase`: cuts the grid into `numX` by `numY` tiles, column of
      tiles by column of tiles, tile `(i, j)` starting at `(i*wD, j*hD)`
      with `wD = width / numX` and `hD = height / numY`, `wD` by `hD` cells
      except that the last column and the last row of tiles take what
      remains. A negative count gives no tiles; a zero count divides by
      zero and is excluded. */
  method DivideBase(base: Base, numX: int, numY: int) returns (bases: seq<Base>)
    requires base.Shaped() && numX != 0 && numY != 0
    ensures numX < 0 || numY < 0 ==> bases == []
    ensures 1 <= numX && 1 <= numY ==> |bases| == numX * numY
    ensures 1 <= numX && 1 <= numY ==>
              CopiesRegions(bases, base.blocks, base.width, ColumnMajorTiles(base.width, base.height, numX, numY, numX))
  {
    var w, h := base.width, base.height;
    var wD, hD := w / numX, h / numY;
    bases := [];
    if numX < 0 || numY < 0 {
      // A negative count: one of the two loops does not run, and no tile is made.
      return;
    }
    for i := 0 to numX
      invariant CopiesRegions(bases, base.blocks, w, ColumnMajorTiles(w, h, numX, numY, i))
    {
      bases := CutColumn(base, numX, numY, wD, hD, i, bases);
    }
  }

  /** The inner loop of `DivideBase`: the tiles of column `i`, top to
      bottom, appended to those of the columns to its left. */
  method CutColumn(base: Base, numX: int, numY: int, wD: int, hD: int, i: int, left: seq<Base>) returns (bases: seq<Base>)
    requires base.Shaped() && 1 <= numX && 1 <= numY && 0 <= i < numX
    requires wD == base.width / numX && hD == base.height / numY
    requires CopiesRegions(left, base.blocks, base.width, ColumnMajorTiles(base.width, base.height, numX, numY, i))
    ensures CopiesRegions(bases, base.blocks, base.width, ColumnMajorTiles(base.width, base.height, numX, numY, i + 1))
    ensures |bases| >= |left| && bases[..|left|] == left
  {
    var w, h := base.width, base.height;
    ghost var done := ColumnMajorTiles(w, h, numX, numY, i);
    bases := left;
    for j := 0 to numY
      invariant |bases| >= |left| && bases[..|left|] == left
      invariant CopiesRegions(bases, base.blocks, w, done + TileColumn(w, h, numX, numY, i, j))
    {
      ghost var r := TileRegion(w, h, numX, numY, i, j);
      var tile := CutTile(base, numX, numY, wD, hD, i, j);
      CopiesColumnSnoc(bases, tile, base.blocks, w, done, TileColumn(w, h, numX, numY, i, j), r);
      PrefixSnoc(bases, tile, |left|);
      bases := bases + [tile];
    }
  }

  /** The body of `DivideBase`'s loops: tile `(i, j)`, its corner and its
      size chosen by whether it is in the last column or the last row. */
  method CutTile(base: Base, numX: int, numY: int, wD: int, hD: int, i: int, j: int) returns (tile: Base)
    requires base.Shaped() && 1 <= numX && 1 <= numY && 0 <= i < numX && 0 <= j < numY
    requires wD == base.width / numX && hD == base.height / numY
    ensures var r := TileRegion(base.width, base.height, numX, numY, i, j);
            tile.width == r.w && tile.height == r.h && CopyOf(tile.blocks, base.blocks, base.width, r)
  {
    var w, h := base.width, base.height;
    var curX, curY := i * wD, j * hD;
    var curW, curH;
    if i == numX - 1 {
      if j == numY - 1 {
        curW, curH := w - i * wD, h - j * hD;
      } else {
        curW, curH := w - i * wD, hD;
      }
    } else if j == numY - 1 {
      curW, curH := wD, h - j * hD;
    } else {
      curW, curH := wD, hD;
    }
    assert Region(curX, curY, curW, curH) == TileRegion(w, h, numX, numY, i, j);
    TileInside(w, h, numX, numY, i, j);
    var blocks := CopySubMatrix(base, curX, curY, curW, curH);
    tile := Base(blocks, curW, curH);
  }

  /** What `DivideBase` hands out: tile `(i, j)` at position `i*numY + j`,
      `wD` wide (the last column the rest of the width) and `hD` high (the
      last row the rest of the height), holding the cells of its region;
      every cell of the grid lies in exactly one tile, and the tiles' areas
      add up to the grid's. */
  lemma DividedTiles(bases: seq<Base>, base: Base, numX: int, numY: int, i: int, j: int)
    requires base.Shaped() && 1 <= numX && 1 <= numY && 0 <= i < numX && 0 <= j < numY
    requires CopiesRegions(bases, base.blocks, base.width, ColumnMajorTiles(base.width, base.height, numX, numY, numX))
    ensures 0 <= i * numY + j < |bases|
    ensures var t, wD, hD := bases[i * numY + j], base.width / numX, base.height / numY;
            t.width == (if i == numX - 1 then base.width - (numX - 1) * wD else wD) &&
            t.height == (if j == numY - 1 then base.height - (numY - 1) * hD else hD) &&
            CopyOf(t.blocks, base.blocks, base.width, Region(i * wD, j * hD, t.width, t.height))
  {
    ColumnMajorTilesAt(base.width, base.height, numX, numY, numX, i, j);
    assert Index(numY, j, i) == i * numY + j;
  }

  /** The tiles cover the grid without overlapping, and their areas add up
      to the grid's. */
  lemma DividedCover(base: Base, numX: int, numY: int, x: int, y: int, i: int, j: int)
    requires base.Shaped() && 1 <= numX && 1 <= numY
    requires 0 <= x < base.width && 0 <= y < base.height && 0 <= i < numX && 0 <= j < numY
    ensures RegionContains(TileRegion(base.width, base.height, numX, numY, i, j), x, y) <==>
            i == Owner(Extents(base.width, numX), x) && j == Owner(Extents(base.height, numY), y)
    ensures Area(ColumnMajorTiles(base.width, base.height, numX, numY, numX)) == base.width * base.height
  {
    GridCover(base.width, base.height, numX, numY, x, y, i, j);
    TileAreas(base.width, base.height, numX, numY);
  }

  // ---------------------------------------------------------------------
  // The sub-problem.

  /** `SubProblem`: the model of one grid. The library's environment and
      model are the builder `model`; `constraints` is the sub-problem's own
      copy of everything added to the model, kept by `AddConstraint`; the
      block variables are `Cell(k)` and the variables of catalog shape `s`
      are `Rect(s, ax, ay)`, so `rectsVarsArray` keeps only the shapes.
      `minNumCross` and `maxRectSize` are the program's globals. */
  class SubProblem {
    const base: Base
    const minNumCross: int
    const maxRectSize: int
    const model: Builder
    var rectsVarsArray: seq<Shape>
    var constraints: seq<Constraint>

    /** What the model is built from. */
    function Inst(): Instance
      requires base.Shaped()
    {
      InstanceOf(base, minNumCross, maxRectSize)
    }

    /** The grid fills its dimensions, and the log holds exactly what was
        added to the model. */
    predicate Valid()
      reads this, model
    {
      base.Shaped() && constraints == model.constraints
    }

    /** The constructor runs the `Init` steps in order and leaves the
        model, and the log, the whole filtered model of the grid, the
        objective all its cells. */
    constructor (b: Base, minNumCross: int, maxRectSize: int)
      requires b.Shaped()
      ensures base == b && this.minNumCross == minNumCross && this.maxRectSize == maxRectSize
      ensures Valid() && fresh(model)
      ensures rectsVarsArray == Catalog(maxRectSize)
      ensures constraints == FilteredModel(Inst()) && model.constraints == FilteredModel(Inst())
      ensures model.objective == CellRange(|b.blocks|)
    {
      base := b;
      this.minNumCross := minNumCross;
      this.maxRectSize := maxRectSize;
      model := new Builder();
      rectsVarsArray := [];
      constraints := [];
      new;
      InitBaseVariables();
      InitRectVariables();
      InitOverlapConstraints();
      InitObjectiveFunction();
    }

    /** `AddConstraint`: adds `c` to the model and appends it to the log;
        nothing already logged changes. */
    method AddConstraint(c: Constraint)
      requires Valid()
      modifies this, model
      ensures Valid() && rectsVarsArray == old(rectsVarsArray)
      ensures constraints == old(constraints) + [c] && model.constraints == old(model.constraints) + [c]
      ensures model.objective == old(model.objective) && model.nextAux == old(model.nextAux)
    {
      model.Add(c);
      constraints := constraints + [c];
    }

    /** `blocksVars[i] == 0` for every missing block, in order. */
    method InitBaseVariables()
      requires Valid()
      modifies this, model
      ensures Valid() && rectsVarsArray == old(rectsVarsArray)
      ensures model.constraints == old(model.constraints) + ZeroAbsent(Inst().kinds, |base.blocks|)
      ensures model.objective == old(model.objective) && model.nextAux == old(model.nextAux)
    {
      ghost var kinds, c0 := Inst().kinds, model.constraints;
      for i := 0 to base.Size()
        invariant Valid() && rectsVarsArray == old(rectsVarsArray)
        invariant model.constraints == c0 + ZeroAbsent(kinds, i)
        invariant model.objective == old(model.objective) && model.nextAux == old(model.nextAux)
      {
        AppendAssoc(c0, ZeroAbsent(kinds, i), if kinds[i] == Absent then [IsZero(Cell(i))] else []);
        var blockType := base.blocks[i];
        if blockType == DoNotExists {
          AddConstraint(IsZero(Cell(i)));
        }
      }
    }

    /** The catalog loop: every `(i, j)` with `i*j <= maxRectSize`, widths
        first, numbered in order. */
    method InitRectVariables()
      requires Valid() && rectsVarsArray == []
      modifies this, model
      ensures Valid() && rectsVarsArray == Catalog(maxRectSize)
      ensures var e := ShapesConstraints(Inst(), Filtered, Shapes(Inst()), old(model.nextAux));
              model.constraints == old(model.constraints) + e.constraints && model.nextAux == e.next
      ensures model.objective == old(model.objective)
    {
      ghost var c0, n0 := model.constraints, model.nextAux;
      var i := 1;
      while i <= maxRectSize
        invariant 1 <= i <= if maxRectSize < 1 then 1 else maxRectSize + 1
        invariant Valid() && rectsVarsArray == CatalogUpTo(maxRectSize, i - 1) && PositiveShapes(rectsVarsArray)
        invariant var e := ShapesConstraints(Inst(), Filtered, rectsVarsArray, n0);
                  model.constraints == c0 + e.constraints && model.nextAux == e.next
        invariant model.objective == old(model.objective)
      {
        AddShapesOfWidth(i, c0, n0);
        i := i + 1;
      }
    }

    /** The inner loop of the catalog: the shapes `i` wide. */
    method AddShapesOfWidth(i: int, ghost c0: seq<Constraint>, ghost n0: nat)
      requires Valid() && 1 <= i && PositiveShapes(rectsVarsArray)
      requires var e := ShapesConstraints(Inst(), Filtered, rectsVarsArray, n0);
               model.constraints == c0 + e.constraints && model.nextAux == e.next
      modifies this, model
      ensures Valid() && rectsVarsArray == old(rectsVarsArray) + CatalogRow(maxRectSize, i, maxRectSize)
      ensures PositiveShapes(rectsVarsArray)
      ensures var e := ShapesConstraints(Inst(), Filtered, rectsVarsArray, n0);
              model.constraints == c0 + e.constraints && model.nextAux == e.next
      ensures model.objective == old(model.objective)
    {
      var j := 1;
      while j <= maxRectSize
        invariant 1 <= j <= if maxRectSize < 1 then 1 else maxRectSize + 1
        invariant Valid() && rectsVarsArray == old(rectsVarsArray) + CatalogRow(maxRectSize, i, j - 1)
        invariant PositiveShapes(rectsVarsArray)
        invariant var e := ShapesConstraints(Inst(), Filtered, rectsVarsArray, n0);
                  model.constraints == c0 + e.constraints && model.nextAux == e.next
        invariant model.objective == old(model.objective)
      {
        CatalogRowSnoc(maxRectSize, i, j - 1);
        if i * j <= maxRectSize {
          assert PositiveShapes(rectsVarsArray + [Shape(i, j)]);
          ShapesSnoc(Inst(), Filtered, rectsVarsArray, Shape(i, j), n0);
          ghost var e := ShapesConstraints(Inst(), Filtered, rectsVarsArray, n0);
          AppendAssoc(c0, e.constraints, ShapeConstraints(Inst(), Filtered, |rectsVarsArray|, i, j, e.next).constraints);
          AddRectangle(|rectsVarsArray|, i, j);
          rectsVarsArray := rectsVarsArray + [Shape(i, j)];
        }
        j := j + 1;
      }
    }

    /** `AddRectangle`: for every anchor of the `w` by `h` shape `s`, column
        by column, `rect == 0` when the rectangle there is not valid and
        `rect <= product` of its cells when it is. */
    method AddRectangle(s: int, w: int, h: int)
      requires Valid() && 1 <= w && 1 <= h
      modifies this, model
      ensures Valid() && rectsVarsArray == old(rectsVarsArray)
      ensures var e := ShapeConstraints(Inst(), Filtered, s, w, h, old(model.nextAux));
              model.constraints == old(model.constraints) + e.constraints && model.nextAux == e.next
      ensures model.objective == old(model.objective)
    {
      var matrixW := base.width - w + 1;
      ghost var inst := Inst();
      assert WellFormed(inst) && inst.width == base.width && inst.height == base.height;
      ghost var ok := AdmissibleAt(inst, Filtered, w, h);
      ghost var b := ShapeBody(inst, Filtered, s, w, h, ok);
      ghost var c0, n0 := model.constraints, model.nextAux;
      var i := 0;
      while i < matrixW
        invariant 0 <= i <= if matrixW < 0 then 0 else matrixW
        invariant Valid() && rectsVarsArray == old(rectsVarsArray)
        invariant model.constraints == c0 + Sweep(b, i, n0).constraints && model.nextAux == Sweep(b, i, n0).next
        invariant model.objective == old(model.objective)
      {
        ShapeStep(inst, Filtered, s, w, h, ok, i, n0);
        AppendAssoc(c0, Sweep(b, i, n0).constraints,
                    Sweep(ColumnBody(inst, Filtered, s, w, h, ok, i), inst.height - h + 1, Sweep(b, i, n0).next).constraints);
        AddAnchorColumn(s, w, h, i);
        i := i + 1;
      }
    }

    /** The inner anchor loop of `AddRectangle`: the anchors of column `ax`. */
    method AddAnchorColumn(s: int, w: int, h: int, ax: int)
      requires Valid() && 1 <= w && 1 <= h && 0 <= ax <= base.width - w
      modifies this, model
      ensures Valid() && rectsVarsArray == old(rectsVarsArray)
      ensures var e := Sweep(ColumnBody(Inst(), Filtered, s, w, h, AdmissibleAt(Inst(), Filtered, w, h), ax),
                             base.height - h + 1, old(model.nextAux));
              model.constraints == old(model.constraints) + e.constraints && model.nextAux == e.next
      ensures model.objective == old(model.objective)
    {
      var matrixH := base.height - h + 1;
      ghost var inst := Inst();
      assert WellFormed(inst) && inst.width == base.width && inst.height == base.height;
      ghost var ok := AdmissibleAt(inst, Filtered, w, h);
      ghost var b := ColumnBody(inst, Filtered, s, w, h, ok, ax);
      ghost var c0, n0 := model.constraints, model.nextAux;
      var j := 0;
      while j < matrixH
        invariant 0 <= j <= if matrixH < 0 then 0 else matrixH
        invariant Valid() && rectsVarsArray == old(rectsVarsArray)
        invariant c0 + Sweep(b, j, n0).constraints == model.constraints && Sweep(b, j, n0).next == model.nextAux
        invariant model.objective == old(model.objective)
      {
        ColumnStep(inst, Filtered, s, w, h, ok, ax, j, n0);
        AppendAssoc(c0, Sweep(b, j, n0).constraints,
                    AnchorConstraints(inst, Filtered, s, w, h, ax, j, ok(ax, j), Sweep(b, j, n0).next).constraints);
        AddAnchor(s, w, h, ax, j);
        j := j + 1;
      }
    }

    /** The body of the anchor loops, anchor `(ax, ay)`. */
    method AddAnchor(s: int, w: int, h: int, ax: int, ay: int)
      requires Valid() && 1 <= w && 1 <= h && IsAnchor(Inst(), w, h, ax, ay)
      modifies this, model
      ensures Valid() && rectsVarsArray == old(rectsVarsArray)
      ensures var e := AnchorConstraints(Inst(), Filtered, s, w, h, ax, ay,
                                         AdmissibleAt(Inst(), Filtered, w, h)(ax, ay), old(model.nextAux));
              model.constraints == old(model.constraints) + e.constraints && model.nextAux == e.next
      ensures model.objective == old(model.objective)
    {
      var valid := IsValidRect(ax, ay, w, h);
      if !valid {
        AddConstraint(IsZero(Rect(s, ax, ay)));
      } else {
        var product := AddProductConstraints(ax, ay, w, h);
        AddConstraint(AtMost(Rect(s, ax, ay), product));
      }
    }

    /** `IsValidRect`: scans the rectangle column by column, gives up at the
        first missing block and otherwise counts the ham blocks; the
        rectangle is valid exactly when it has no missing block and at
        least `minNumCross` ham blocks. */
    method IsValidRect(x: int, y: int, w: int, h: int) returns (valid: bool)
      requires base.Shaped() && Inside(Inst(), x, y, w, h)
      ensures valid == ValidPlacement(Inst(), x, y, w, h)
    {
      ghost var inst := Inst();
      assert WellFormed(inst) && inst.width == base.width && inst.height == base.height;
      var sum := 0;
      for i := 0 to w
        invariant Absent !in FootprintKinds(inst, x, y, i, h)
        invariant sum == SpecialCount(inst, x, y, i, h)
      {
        var present, hams := ScanColumn(x, y, i, h);
        if !present {
          assert Absent in FootprintKinds(inst, x, y, i + 1, h);
          FootprintKindsMembers(inst, x, y, i + 1, h, Absent);
          ghost var i0, j0 :| 0 <= i0 < i + 1 && 0 <= j0 < h && KindAt(inst, x, y, i0, j0) == Absent;
          FootprintKindsMembers(inst, x, y, w, h, Absent);
          return false;
        }
        sum := sum + hams;
      }
      valid := sum >= minNumCross;
    }

    /** The inner loop of `IsValidRect`, column `x + i`: whether the column
        has no missing block, and if so how many ham blocks it has. */
    method ScanColumn(x: int, y: int, i: int, h: int) returns (present: bool, hams: int)
      requires base.Shaped() && 0 <= x + i < base.width && 0 <= y && 0 <= h && y + h <= base.height
      ensures present <==> Absent !in ColumnKinds(Inst(), x, y, i, h)
      ensures present ==> hams == ColumnSpecials(Inst(), x, y, i, h)
    {
      ghost var inst := Inst();
      assert WellFormed(inst) && 0 <= x + i < inst.width && y + h <= inst.height;
      hams := 0;
      for j := 0 to h
        invariant Absent !in ColumnKinds(inst, x, y, i, j)
        invariant hams == ColumnSpecials(inst, x, y, i, j)
      {
        var blockType := base.Access(x + i, y + j);
        ColumnScanStep(inst, x, y, i, j, h, KindOf(blockType));
        if blockType == DoNotExists {
          return false, hams;
        } else if blockType == Ham {
          hams := hams + 1;
        }
      }
      present := true;
    }

    /** `AddProductConstraints`: queues the variables of the rectangle's
        cells column by column, then multiplies the two at the front and
        queues the product until one is left; that one is the AND of the
        cells. */
    method AddProductConstraints(x: int, y: int, w: int, h: int) returns (last: Var)
      requires Valid() && 1 <= w && 1 <= h
      modifies this, model
      ensures Valid() && rectsVarsArray == old(rectsVarsArray)
      ensures var p := ProductOf(Inst(), x, y, w, h, old(model.nextAux));
              last == p.result && model.constraints == old(model.constraints) + p.constraints && model.nextAux == p.next
      ensures model.objective == old(model.objective)
    {
      var mulQueue := QueueCells(x, y, w, h);
      last := ReduceQueue(mulQueue);
    }

    /** The first loops of `AddProductConstraints`: the rectangle's cell
        variables, column by column. */
    method QueueCells(x: int, y: int, w: int, h: int) returns (mulQueue: seq<Var>)
      requires 0 <= w && 0 <= h
      ensures mulQueue == CellVars(FootprintIndices(base.width, x, y, w, h))
    {
      mulQueue := [];
      for i := 0 to w
        invariant mulQueue == CellVars(FootprintIndices(base.width, x, y, i, h))
      {
        ghost var done := FootprintIndices(base.width, x, y, i, h);
        assert done + ColumnIndices(base.width, x, y, i, 0) == done;
        for j := 0 to h
          invariant mulQueue == CellVars(done + ColumnIndices(base.width, x, y, i, j))
        {
          ColumnIndicesSnoc(base.width, x, y, i, j);
          CellVarsSnoc(done + ColumnIndices(base.width, x, y, i, j), x + i + base.width * (y + j));
          AppendAssoc(done, ColumnIndices(base.width, x, y, i, j), [x + i + base.width * (y + j)]);
          mulQueue := mulQueue + [Cell(x + i + base.width * (y + j))];
        }
      }
    }

    /** The last loop of `AddProductConstraints`: multiplies the two
        variables at the front of the queue and queues the product until one
        is left. */
    method ReduceQueue(queue: seq<Var>) returns (last: Var)
      requires Valid() && |queue| >= 1
      modifies this, model
      ensures Valid() && rectsVarsArray == old(rectsVarsArray)
      ensures var p := Reduce(queue, old(model.nextAux));
              last == p.result && model.constraints == old(model.constraints) + p.constraints && model.nextAux == p.next
      ensures model.objective == old(model.objective)
    {
      var mulQueue := queue;
      ghost var n0 := model.nextAux;
      ghost var added: seq<Constraint> := [];
      while |mulQueue| > 1
        invariant |mulQueue| >= 1
        invariant Valid() && rectsVarsArray == old(rectsVarsArray)
        invariant model.constraints == old(model.constraints) + added
        invariant var p := Reduce(mulQueue, model.nextAux);
                  Reduce(queue, n0) == Product(p.result, added + p.constraints, p.next)
        invariant model.objective == old(model.objective)
        decreases |mulQueue|
      {
        mulQueue, added := MultiplyFront(mulQueue, queue, n0, old(model.constraints), added);
      }
      last := mulQueue[0];
    }

    /** One iteration of that loop: pops the two front variables, adds
        their product and pushes it. What the loop has added so far,
        followed by the reduction of what is queued, stays the reduction of
        the whole `queue`. */
    method MultiplyFront(q: seq<Var>, ghost queue: seq<Var>, ghost n0: nat, ghost c0: seq<Constraint>,
                         ghost added: seq<Constraint>) returns (mulQueue: seq<Var>, ghost added': seq<Constraint>)
      requires Valid() && |q| > 1 && |queue| >= 1
      requires model.constraints == c0 + added
      requires var p := Reduce(q, model.nextAux);
               Reduce(queue, n0) == Product(p.result, added + p.constraints, p.next)
      modifies this, model
      ensures Valid() && rectsVarsArray == old(rectsVarsArray)
      ensures mulQueue == q[2..] + [Aux(old(model.nextAux))]
      ensures model.constraints == old(model.constraints) + MultConstraints(Aux(old(model.nextAux)), q[0], q[1])
      ensures model.nextAux == old(model.nextAux) + 1 && model.objective == old(model.objective)
      ensures model.constraints == c0 + added'
      ensures var p := Reduce(mulQueue, model.nextAux);
              Reduce(queue, n0) == Product(p.result, added' + p.constraints, p.next)
    {
      ghost var n := model.nextAux;
      mulQueue := q;
      var v0 := mulQueue[0];
      mulQueue := mulQueue[1..];
      var v1 := mulQueue[0];
      mulQueue := mulQueue[1..];
      var mult := AddMultConstraints(v0, v1);
      mulQueue := mulQueue + [mult];
      assert mulQueue == q[2..] + [mult];
      AppendAssoc(c0, added, MultConstraints(mult, v0, v1));
      added' := added + MultConstraints(mult, v0, v1);
      ReduceInvariantStep(queue, n0, added, q, n, mulQueue, model.nextAux, added');
    }

    /** `AddMultConstraints`: a fresh variable and the three inequalities
        that make it the product of `v0` and `v1`, each added through the
        log. */
    method AddMultConstraints(v0: Var, v1: Var) returns (res: Var)
      requires Valid()
      modifies this, model
      ensures Valid() && rectsVarsArray == old(rectsVarsArray)
      ensures res == Aux(old(model.nextAux)) && model.nextAux == old(model.nextAux) + 1
      ensures model.constraints == old(model.constraints) + MultConstraints(res, v0, v1)
      ensures model.objective == old(model.objective)
    {
      res := model.NewBoolVar();
      AddConstraint(AtMost(res, v0));
      AddConstraint(AtMost(res, v1));
      AddConstraint(AtLeastSumMinusOne(res, v0, v1));
    }

    /** `ConstructInclusionConstraintsAndOverlapExpr`: for cell `(x, y)` and
        the `w` by `h` shape `s`, walks the offsets `(i, j)` of the shape and
        keeps the anchors `(x - i, y - j)` in range: it adds `cell >= rect`
        for each and returns their sum. */
    method ConstructInclusionConstraintsAndOverlapExpr(x: int, y: int, s: int, w: int, h: int) returns (expr: seq<Var>)
      requires Valid()
      modifies this, model
      ensures Valid() && rectsVarsArray == old(rectsVarsArray)
      ensures expr == ShapeVars(s, Covering(Inst(), w, h, x, y))
      ensures model.constraints == old(model.constraints) + Inclusions(Cell(Index(base.width, x, y)), expr)
      ensures model.objective == old(model.objective) && model.nextAux == old(model.nextAux)
    {
      ghost var inst := Inst();
      assert WellFormed(inst) && inst.width == base.width && inst.height == base.height;
      ghost var c0 := model.constraints;
      expr := [];
      var i := 0;
      while i < w
        invariant 0 <= i <= if w < 0 then 0 else w
        invariant Valid() && rectsVarsArray == old(rectsVarsArray)
        invariant expr == ShapeVars(s, CoverColumns(inst, w, h, x, y, i))
        invariant model.constraints == c0 + Inclusions(Cell(Index(base.width, x, y)), expr)
        invariant model.objective == old(model.objective) && model.nextAux == old(model.nextAux)
      {
        expr := InclusionColumn(x, y, s, w, h, i, CoverColumns(inst, w, h, x, y, i), c0, expr);
        i := i + 1;
      }
    }

    /** The inner loop of `ConstructInclusionConstraintsAndOverlapExpr`: the
        offsets `(i, j)` of column `i` of the shape, after the anchors `done`
        of the earlier columns. */
    method InclusionColumn(x: int, y: int, s: int, w: int, h: int, i: int, ghost done: seq<(int, int)>,
                           ghost c0: seq<Constraint>, exprIn: seq<Var>) returns (expr: seq<Var>)
      requires Valid()
      requires exprIn == ShapeVars(s, done)
      requires model.constraints == c0 + Inclusions(Cell(Index(base.width, x, y)), exprIn)
      modifies this, model
      ensures Valid() && rectsVarsArray == old(rectsVarsArray)
      ensures expr == ShapeVars(s, done + CoverColumn(Inst(), w, h, x, y, i, h))
      ensures model.constraints == c0 + Inclusions(Cell(Index(base.width, x, y)), expr)
      ensures model.objective == old(model.objective) && model.nextAux == old(model.nextAux)
    {
      ghost var inst := Inst();
      assert WellFormed(inst) && inst.width == base.width && inst.height == base.height;
      var cell := Cell(base.AccessIndex(x, y));
      expr := exprIn;
      assert done + CoverColumn(inst, w, h, x, y, i, 0) == done;
      var j := 0;
      while j < h
        invariant 0 <= j <= if h < 0 then 0 else h
        invariant Valid() && rectsVarsArray == old(rectsVarsArray)
        invariant expr == ShapeVars(s, done + CoverColumn(inst, w, h, x, y, i, j))
        invariant model.constraints == c0 + Inclusions(cell, expr)
        invariant model.objective == old(model.objective) && model.nextAux == old(model.nextAux)
      {
        if x - i >= 0 && x - i < base.width - w + 1 && y - j >= 0 && y - j < base.height - h + 1 {
          ShapeVarsSnoc(s, done + CoverColumn(inst, w, h, x, y, i, j), (x - i, y - j));
          InclusionsSnoc(cell, expr, Rect(s, x - i, y - j));
          AppendAssoc(c0, Inclusions(cell, expr), [AtLeast(cell, Rect(s, x - i, y - j))]);
          AppendAssoc(done, CoverColumn(inst, w, h, x, y, i, j), [(x - i, y - j)]);
          AddConstraint(AtLeast(cell, Rect(s, x - i, y - j)));
          expr := expr + [Rect(s, x - i, y - j)];
        } else {
          assert CoverColumn(inst, w, h, x, y, i, j + 1) == CoverColumn(inst, w, h, x, y, i, j);
        }
        j := j + 1;
      }
    }

    /** `InitOverlapConstraints`: for every cell, column by column, the
        inclusions of every catalog shape, then `sum <= 1` and
        `cell <= sum` over the anchors covering it. */
    method InitOverlapConstraints()
      requires Valid()
      modifies this, model
      ensures Valid() && rectsVarsArray == old(rectsVarsArray)
      ensures model.constraints == old(model.constraints) + CellSweep(Inst(), rectsVarsArray, Combined)
      ensures model.objective == old(model.objective) && model.nextAux == old(model.nextAux)
    {
      ghost var inst, shapes := Inst(), rectsVarsArray;
      assert WellFormed(inst) && inst.width == base.width && inst.height == base.height;
      ghost var c0 := model.constraints;
      for i := 0 to base.width
        invariant Valid() && rectsVarsArray == old(rectsVarsArray)
        invariant model.constraints == c0 + CellColumns(inst, shapes, Combined, i)
        invariant model.objective == old(model.objective) && model.nextAux == old(model.nextAux)
      {
        ghost var done := CellColumns(inst, shapes, Combined, i);
        OverlapColumn(i);
        AppendAssoc(c0, done, CellColumn(inst, shapes, Combined, i, inst.height));
      }
    }

    /** The inner loop of `InitOverlapConstraints`: the cells of column `x`. */
    method OverlapColumn(x: int)
      requires Valid()
      modifies this, model
      ensures Valid() && rectsVarsArray == old(rectsVarsArray)
      ensures model.constraints == old(model.constraints) + CellColumn(Inst(), rectsVarsArray, Combined, x, base.height)
      ensures model.objective == old(model.objective) && model.nextAux == old(model.nextAux)
    {
      ghost var inst, shapes := Inst(), rectsVarsArray;
      assert WellFormed(inst) && inst.width == base.width && inst.height == base.height;
      ghost var c0 := model.constraints;
      for j := 0 to base.height
        invariant Valid() && rectsVarsArray == old(rectsVarsArray)
        invariant model.constraints == c0 + CellColumn(inst, shapes, Combined, x, j)
        invariant model.objective == old(model.objective) && model.nextAux == old(model.nextAux)
      {
        ghost var done := CellColumn(inst, shapes, Combined, x, j);
        CellOverlap(x, j);
        AppendAssoc(c0, done, CellConstraints(inst, shapes, Combined, x, j));
      }
    }

    /** The body of the cell loops, cell `(x, y)`. */
    method CellOverlap(x: int, y: int)
      requires Valid()
      modifies this, model
      ensures Valid() && rectsVarsArray == old(rectsVarsArray)
      ensures model.constraints == old(model.constraints) + CellConstraints(Inst(), rectsVarsArray, Combined, x, y)
      ensures model.objective == old(model.objective) && model.nextAux == old(model.nextAux)
    {
      ghost var inst, shapes := Inst(), rectsVarsArray;
      assert WellFormed(inst) && inst.width == base.width && inst.height == base.height;
      ghost var c0 := model.constraints;
      var overlapExpr: seq<Var> := [];
      for k := 0 to |rectsVarsArray|
        invariant Valid() && rectsVarsArray == shapes
        invariant overlapExpr == OverlapExpr(inst, shapes, x, y, k)
        invariant model.constraints == c0 + CellInclusions(inst, shapes, x, y, k)
        invariant model.objective == old(model.objective) && model.nextAux == old(model.nextAux)
      {
        var w, h := rectsVarsArray[k].width, rectsVarsArray[k].height;
        var e := ConstructInclusionConstraintsAndOverlapExpr(x, y, k, w, h);
        AppendAssoc(c0, CellInclusions(inst, shapes, x, y, k), Inclusions(Cell(Index(inst.width, x, y)), e));
        overlapExpr := overlapExpr + e;
      }
      var cell := Cell(base.AccessIndex(x, y));
      ghost var incl := CellInclusions(inst, shapes, x, y, |shapes|);
      AppendAssoc(c0, incl, [SumAtMostOne(overlapExpr)]);
      AppendAssoc(c0, incl + [SumAtMostOne(overlapExpr)], [AtMostSum(cell, overlapExpr)]);
      assert (incl + [SumAtMostOne(overlapExpr)]) + [AtMostSum(cell, overlapExpr)] == incl + [SumAtMostOne(overlapExpr), AtMostSum(cell, overlapExpr)];
      AddConstraint(SumAtMostOne(overlapExpr));
      AddConstraint(AtMostSum(cell, overlapExpr));
    }

    /** `InitObjectiveFunction`: maximize the sum of all block variables. */
    method InitObjectiveFunction()
      requires Valid()
      modifies model
      ensures Valid()
      ensures model.objective == CellRange(|base.blocks|)
      ensures model.constraints == old(model.constraints) && model.nextAux == old(model.nextAux)
    {
      var objExpr: seq<Var> := [];
      for i := 0 to base.Size()
        invariant objExpr == CellRange(i)
      {
        objExpr := objExpr + [Cell(i)];
      }
      model.Maximize(objExpr);
    }
  }
}
