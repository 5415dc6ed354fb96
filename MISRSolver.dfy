/** `MISRSolver.cpp`: the grid of blocks, its division into tiles and the
    merge that puts solved tiles back together, and the solver object that
    builds the maximum-independent-set-of-rectangles model of one grid. */
module MISRSolver {
  import opened LinearModel
  import opened Linearization
  import opened Indexing
  import opened Placement
  import opened Selection
  import opened Steps
  import opened Tiling

  // ---------------------------------------------------------------------
  // Blocks.

  /** The five block types; the `Selected` ones mark cells of the solution. */
  datatype Block = Regular | Ham | SelectedRegular | SelectedHam | DoNotExists

  /** How the model sees a block: a missing cell, a ham cell (selected or
      not) or a plain one. */
  function KindOf(b: Block): Kind {
    match b
    case DoNotExists => Absent
    case Ham | SelectedHam => Special
    case Regular | SelectedRegular => Plain
  }

  function Kinds(bs: seq<Block>): (r: seq<Kind>)
    ensures |r| == |bs| && forall k :: 0 <= k < |bs| ==> r[k] == KindOf(bs[k])
  {
    seq(|bs|, k requires 0 <= k < |bs| => KindOf(bs[k]))
  }

  predicate IsSelected(b: Block) {
    b == SelectedRegular || b == SelectedHam
  }

  // ---------------------------------------------------------------------
  // The per-class counters.

  /** `numRegular`, `numHam` and `numDoNotExists`. */
  datatype Tally = Tally(regular: int, ham: int, doNotExists: int)

  /** The one counter `AddBlock` increments for `b`: a selected block counts
      with its unselected class. */
  function Bump(t: Tally, b: Block): Tally {
    match b
    case DoNotExists => t.(doNotExists := t.doNotExists + 1)
    case Regular | SelectedRegular => t.(regular := t.regular + 1)
    case Ham | SelectedHam => t.(ham := t.ham + 1)
  }

  /** The counters after adding `bs` one by one to an empty grid; they
      always add up to the number of blocks. */
  function TallyOf(bs: seq<Block>): (t: Tally)
    ensures t.regular >= 0 && t.ham >= 0 && t.doNotExists >= 0
    ensures t.regular + t.ham + t.doNotExists == |bs|
  {
    if bs == [] then Tally(0, 0, 0) else Bump(TallyOf(bs[..|bs| - 1]), bs[|bs| - 1])
  }

  /** Each counter counts the blocks of its class. */
  lemma {:induction false} TallyCounts(bs: seq<Block>)
    ensures TallyOf(bs) == Tally(Count(Kinds(bs), Plain), Count(Kinds(bs), Special), Count(Kinds(bs), Absent))
  {
    if bs != [] {
      var init, last := bs[..|bs| - 1], bs[|bs| - 1];
      TallyCounts(init);
      assert Kinds(bs) == Kinds(init) + [KindOf(last)];
      CountAppend(Kinds(init), [KindOf(last)], Plain);
      CountAppend(Kinds(init), [KindOf(last)], Special);
      CountAppend(Kinds(init), [KindOf(last)], Absent);
    }
  }

  // ---------------------------------------------------------------------
  // The grid.

  /** `Base`: the blocks row by row, block `(i, j)` at `i + width*j`, and
      the counters `AddBlock` keeps. */
  class Base {
    var blocks: seq<Block>
    var width: int
    var height: int
    var numRegular: int
    var numHam: int
    var numDoNotExists: int

    /** The blocks fill a `width` by `height` grid. */
    predicate Shaped()
      reads this
    {
      0 <= width && 0 <= height && |blocks| == width * height
    }

    /** The counters agree with the blocks. */
    predicate Counted()
      reads this
    {
      Tally(numRegular, numHam, numDoNotExists) == TallyOf(blocks)
    }

    /** `Base()`: no blocks, counters at zero. The source leaves the width
        and the height unset; here they are zero. */
    constructor Empty()
      ensures blocks == [] && width == 0 && height == 0
      ensures numRegular == 0 && numHam == 0 && numDoNotExists == 0
      ensures Shaped() && Counted()
    {
      blocks, width, height := [], 0, 0;
      numRegular, numHam, numDoNotExists := 0, 0, 0;
    }

    /** `Base(vector<Block>&&, w, h)`: takes the blocks as they are; the
        counters stay at zero. */
    constructor FromBlocks(b: seq<Block>, w: int, h: int)
      ensures blocks == b && width == w && height == h
      ensures numRegular == 0 && numHam == 0 && numDoNotExists == 0
    {
      blocks, width, height := b, w, h;
      numRegular, numHam, numDoNotExists := 0, 0, 0;
    }

    /** Appends one block and increments exactly one counter, so counters
        that agreed with the blocks still do. */
    method AddBlock(b: Block)
      modifies this
      ensures blocks == old(blocks) + [b]
      ensures width == old(width) && height == old(height)
      ensures Tally(numRegular, numHam, numDoNotExists) == Bump(old(Tally(numRegular, numHam, numDoNotExists)), b)
      ensures old(Counted()) ==> Counted()
    {
      match b {
        case DoNotExists => numDoNotExists := numDoNotExists + 1;
        case SelectedRegular => numRegular := numRegular + 1;
        case Regular => numRegular := numRegular + 1;
        case SelectedHam => numHam := numHam + 1;
        case Ham => numHam := numHam + 1;
      }
      blocks := blocks + [b];
      assert blocks[..|blocks| - 1] == old(blocks);
    }

    function Size(): int
      reads this
    {
      |blocks|
    }

    /** `access(i, j)`: block `(i, j)` of the grid. */
    function Access(i: int, j: int): (b: Block)
      reads this
      requires Shaped() && 0 <= i < width && 0 <= j < height
      ensures 0 <= Index(width, i, j) < |blocks| && b == blocks[Index(width, i, j)]
    {
      IndexInRange(width, height, i, j);
      blocks[Index(width, i, j)]
    }

    /** The merge constructor `Base(vector<Base> const&, w, h)`: walks the
        grid row by row, finding the tile of each cell by accumulating the
        widths of the first row of tiles and the heights of the first
        column, and adds the tile's block. The tiling is a well-formed one
        with column widths `cw` and row heights `rh` that add up to `w` and
        `h`; the result is the merged grid `MergeSpec`. */
    constructor Merge(bases: seq<Base>, w: int, h: int, ghost cw: seq<int>, ghost rh: seq<int>)
      requires TiledBases(bases, cw, rh)
      requires Start(cw, |cw|) == w && Start(rh, |rh|) == h
      ensures width == w && height == h
      ensures blocks == MergeSpec(Contents(bases), cw, rh)
      ensures Shaped() && Counted()
    {
      width, height := w, h;
      blocks := [];
      numRegular, numHam, numDoNotExists := 0, 0, 0;
      new;
      var numBaseInWidth := TilesAcross(bases, cw, rh, w);
      AddMergedRows(bases, Contents(bases), cw, rh, numBaseInWidth);
    }

    /** The outer loop of the merge: walks the first column of tiles by
        their heights, keeping the index `startingBase` of the first tile
        of the current row of tiles, and adds the grid row by row. */
    method AddMergedRows(bases: seq<Base>, ghost tiles: seq<seq<Block>>, ghost cw: seq<int>, ghost rh: seq<int>, numBaseInWidth: int)
      requires TiledBases(bases, cw, rh) && tiles == Contents(bases) && this !in bases
      requires width == Start(cw, |cw|) && height == Start(rh, |rh|) && numBaseInWidth == |cw|
      requires blocks == [] && Counted()
      modifies this
      ensures width == old(width) && height == old(height)
      ensures blocks == MergeSpec(tiles, cw, rh)
      ensures Shaped() && Counted()
    {
      StartMonotone(cw, 0, |cw|);
      StartMonotone(rh, 0, |rh|);
      var accHeight, startingBase := 0, 0;
      ghost var r := 0;
      for j := 0 to height
        invariant r == Owner(rh, if j == 0 then 0 else j - 1)
        invariant startingBase == RowStart(|cw|, r) && accHeight == Start(rh, r)
        invariant blocks == MergeRows(tiles, cw, rh, j)
        invariant Counted() && width == old(width) && height == old(height)
      {
        OwnerAdvance(rh, j, r);
        FirstColumn(bases, cw, rh, r);
        if j >= accHeight + bases[startingBase].height {
          accHeight := accHeight + bases[startingBase].height;
          startingBase := startingBase + numBaseInWidth;
          r := r + 1;
        }
        AddMergedRow(bases, tiles, cw, rh, j, startingBase, accHeight, r);
      }
    }

    /** The inner loop of the merge: adds row `j` of the merged grid, walking
        the row of tiles that starts at `startingBase`, row `j - accHeight`
        of each. */
    method AddMergedRow(bases: seq<Base>, ghost tiles: seq<seq<Block>>, ghost cw: seq<int>, ghost rh: seq<int>,
                        j: int, startingBase: int, accHeight: int, ghost r: int)
      requires TiledBases(bases, cw, rh) && tiles == Contents(bases) && this !in bases
      requires width == Start(cw, |cw|) && 0 <= width && 0 <= j < Start(rh, |rh|)
      requires r == Owner(rh, j) && startingBase == RowStart(|cw|, r) && accHeight == Start(rh, r)
      modifies this
      ensures width == old(width) && height == old(height)
      ensures blocks == old(blocks) + MergeRow(tiles, cw, rh, j, width)
      ensures old(Counted()) ==> Counted()
    {
      var y := j - accHeight;
      var accWidth, baseOffset := 0, 0;
      for i := 0 to width
        invariant baseOffset == Owner(cw, if i == 0 then 0 else i - 1)
        invariant accWidth == Start(cw, baseOffset)
        invariant blocks == old(blocks) + MergeRow(tiles, cw, rh, j, i)
        invariant width == old(width) && height == old(height)
        invariant old(Counted()) ==> Counted()
      {
        OwnerAdvance(cw, i, baseOffset);
        TileAt(bases, cw, rh, baseOffset, r);
        if i >= accWidth + bases[startingBase + baseOffset].width {
          accWidth := accWidth + bases[startingBase + baseOffset].width;
          baseOffset := baseOffset + 1;
        }
        var x := i - accWidth;
        AddBlock(TileBlock(bases, tiles, cw, rh, i, j, startingBase + baseOffset, x, y));
      }
    }
  }

  /** `bases[t].access(x, y)`, the block the merge reads for cell `(i, j)`
      once it has found the tile `t` and the offsets `(x, y)` into it: cell
      `(i, j)` of the merged grid. */
  function TileBlock(bases: seq<Base>, ghost tiles: seq<seq<Block>>, ghost cw: seq<int>, ghost rh: seq<int>,
                     i: int, j: int, t: int, x: int, y: int): (b: Block)
    reads bases
    requires TiledBases(bases, cw, rh) && tiles == Contents(bases)
    requires 0 <= i < Start(cw, |cw|) && 0 <= j < Start(rh, |rh|)
    requires t == Owner(cw, i) + RowStart(|cw|, Owner(rh, j))
    requires x == i - Start(cw, Owner(cw, i)) && y == j - Start(rh, Owner(rh, j))
    ensures b == MergeCell(tiles, cw, rh, i, j)
  {
    var c, r := Owner(cw, i), Owner(rh, j);
    assert 0 <= c < |cw| && 0 <= x < cw[c] by { OwnerFacts(cw, i); }
    assert 0 <= r < |rh| && 0 <= y < rh[r] by { OwnerFacts(rh, j); }
    TileAccess(bases, tiles, cw, rh, c, r, x, y);
    MergeCellAt(tiles, cw, rh, i, j);
    bases[t].Access(x, y)
  }

  /** The first loop of the merge: walks the first row of tiles by their
      widths and counts them, the owner of the last column plus one. */
  method TilesAcross(bases: seq<Base>, ghost cw: seq<int>, ghost rh: seq<int>, w: int) returns (numBaseInWidth: int)
    requires TiledBases(bases, cw, rh) && Start(cw, |cw|) == w
    ensures numBaseInWidth == |cw|
  {
    StartMonotone(cw, 0, |cw|);
    var accWidth := 0;
    numBaseInWidth := 0;
    for i := 0 to w
      invariant numBaseInWidth == Owner(cw, if i == 0 then 0 else i - 1)
      invariant accWidth == Start(cw, numBaseInWidth)
    {
      OwnerAdvance(cw, i, numBaseInWidth);
      FirstRow(bases, cw, rh, numBaseInWidth);
      if i >= accWidth + bases[numBaseInWidth].width {
        accWidth := accWidth + bases[numBaseInWidth].width;
        numBaseInWidth := numBaseInWidth + 1;
      }
    }
    LastOwner(cw);
    numBaseInWidth := numBaseInWidth + 1;
  }

  /** The blocks of each grid of `bases`. */
  ghost function Contents(bases: seq<Base>): (ts: seq<seq<Block>>)
    reads bases
    ensures |ts| == |bases| && forall k :: 0 <= k < |bases| ==> ts[k] == bases[k].blocks
  {
    seq(|bases|, k requires 0 <= k < |bases| reads bases => bases[k].blocks)
  }

  /** `bases` is a well-formed tiling by the column widths `cw` and the row
      heights `rh`, each tile a grid of its own of the right size. */
  ghost predicate TiledBases(bases: seq<Base>, cw: seq<int>, rh: seq<int>)
    reads bases
  {
    WellTiled(Contents(bases), cw, rh) &&
    forall c, r {:trigger Index(|cw|, c, r)} :: 0 <= c < |cw| && 0 <= r < |rh| ==>
      0 <= Index(|cw|, c, r) < |bases| &&
      bases[Index(|cw|, c, r)].width == cw[c] && bases[Index(|cw|, c, r)].height == rh[r]
  }

  /** Tile `(c, r)` sits at `c + |cw|*r` and has the sizes of its column
      and its row. */
  lemma TileAt(bases: seq<Base>, cw: seq<int>, rh: seq<int>, c: int, r: int)
    requires TiledBases(bases, cw, rh) && 0 <= c < |cw| && 0 <= r < |rh|
    ensures 0 <= c + RowStart(|cw|, r) < |bases|
    ensures bases[c + RowStart(|cw|, r)].width == cw[c] && bases[c + RowStart(|cw|, r)].height == rh[r]
  {
    TileContents(bases, cw, rh, c, r);
  }

  /** ... and holds the tiling's tile `(c, r)`. */
  lemma TileContents(bases: seq<Base>, cw: seq<int>, rh: seq<int>, c: int, r: int)
    requires TiledBases(bases, cw, rh) && 0 <= c < |cw| && 0 <= r < |rh|
    ensures Index(|cw|, c, r) == c + RowStart(|cw|, r)
    ensures 0 <= c + RowStart(|cw|, r) < |bases|
    ensures bases[c + RowStart(|cw|, r)].width == cw[c] && bases[c + RowStart(|cw|, r)].height == rh[r]
    ensures |bases[c + RowStart(|cw|, r)].blocks| == cw[c] * rh[r]
  {
    var tiles := Contents(bases);
    assert 0 <= Index(|cw|, c, r) < |bases|;
    assert bases[Index(|cw|, c, r)].width == cw[c] && bases[Index(|cw|, c, r)].height == rh[r];
    assert |tiles[Index(|cw|, c, r)]| == cw[c] * rh[r];
    assert tiles[Index(|cw|, c, r)] == bases[Index(|cw|, c, r)].blocks;
    RowStartIs(|cw|, r);
  }

  lemma FirstRow(bases: seq<Base>, cw: seq<int>, rh: seq<int>, c: int)
    requires TiledBases(bases, cw, rh) && 0 <= c < |cw|
    ensures 0 <= c < |bases| && bases[c].width == cw[c]
  {
    TileAt(bases, cw, rh, c, 0);
  }

  lemma FirstColumn(bases: seq<Base>, cw: seq<int>, rh: seq<int>, r: int)
    requires TiledBases(bases, cw, rh) && 0 <= r < |rh|
    ensures 0 <= RowStart(|cw|, r) < |bases| && bases[RowStart(|cw|, r)].height == rh[r]
  {
    TileAt(bases, cw, rh, 0, r);
  }

  /** The last position of an axis belongs to its last piece. */
  lemma LastOwner(ext: seq<int>)
    requires Positive(ext) && |ext| >= 1
    ensures Owner(ext, Start(ext, |ext|) - 1) == |ext| - 1
  {
    StartMonotone(ext, 0, |ext| - 1);
    OwnerUnique(ext, Start(ext, |ext|) - 1, |ext| - 1);
  }

  lemma TileCell(b: Base, tile: seq<Block>, w: int, h: int, x: int, y: int)
    requires b.blocks == tile && b.width == w && b.height == h && |tile| == w * h
    requires 0 <= x < w && 0 <= y < h
    ensures b.Shaped() && 0 <= Index(w, x, y) < |tile| && b.Access(x, y) == tile[Index(w, x, y)]
  {
    IndexInRange(w, h, x, y);
  }

  /** Block `(x, y)` of tile `(c, r)` is the tiling's. */
  lemma TileAccess(bases: seq<Base>, tiles: seq<seq<Block>>, cw: seq<int>, rh: seq<int>, c: int, r: int, x: int, y: int)
    requires TiledBases(bases, cw, rh) && tiles == Contents(bases)
    requires 0 <= c < |cw| && 0 <= r < |rh| && 0 <= x < cw[c] && 0 <= y < rh[r]
    ensures var t := c + RowStart(|cw|, r);
            0 <= t < |bases| && Index(|cw|, c, r) == t && bases[t].Shaped() &&
            x < bases[t].width && y < bases[t].height && 0 <= Index(cw[c], x, y) < |tiles[t]| &&
            bases[t].Access(x, y) == tiles[t][Index(cw[c], x, y)]
  {
    var t := c + RowStart(|cw|, r);
    assert Index(|cw|, c, r) == t && 0 <= t < |bases| && bases[t].blocks == tiles[t] &&
           bases[t].width == cw[c] && bases[t].height == rh[r] && |tiles[t]| == cw[c] * rh[r] by {
      TileContents(bases, cw, rh, c, r);
    }
    TileCell(bases[t], tiles[t], cw[c], rh[r], x, y);
  }

  // ---------------------------------------------------------------------
  // Dividing the grid into tiles.

  /** `CopySubMatrix`: the `w` by `h` region at `(x, y)`, row by row, block
      `(i, j)` of the region at `i + w*j`. */
  method CopySubMatrix(base: Base, x: int, y: int, w: int, h: int) returns (res: seq<Block>)
    requires base.Shaped()
    requires 0 <= x && 0 <= w && x + w <= base.width && 0 <= y && 0 <= h && y + h <= base.height
    ensures InRange(RowMajorIndices(base.width, x, y, w, h), |base.blocks|)
    ensures res == RowMajorCopy(base.blocks, base.width, Region(x, y, w, h))
    ensures CopyOf(res, base.blocks, base.width, Region(x, y, w, h))
  {
    RowMajorCopyOf(base.blocks, base.width, base.height, Region(x, y, w, h));
    res := [];
    for j := y to y + h
      invariant InRange(RowMajorIndices(base.width, x, y, w, j - y), |base.blocks|)
      invariant res == Gather(base.blocks, RowMajorIndices(base.width, x, y, w, j - y))
    {
      ghost var done := RowMajorIndices(base.width, x, y, w, j - y);
      for i := x to x + w
        invariant InRange(done + RowIndices(base.width, x, y, j - y, i - x), |base.blocks|)
        invariant res == Gather(base.blocks, done + RowIndices(base.width, x, y, j - y, i - x))
      {
        var b := base.Access(i, j);
        ghost var idx := done + RowIndices(base.width, x, y, j - y, i - x);
        GatherSnoc(base.blocks, idx, Index(base.width, i, j));
        RowIndicesSnoc(base.width, x, y, j - y, i - x);
        assert idx + [Index(base.width, i, j)] == done + RowIndices(base.width, x, y, j - y, i + 1 - x);
        res := res + [b];
      }
      RowMajorInGrid(base.width, base.height, x, y, w, j + 1 - y);
    }
  }

  /** `bases` holds grids copied from the regions `rs` of a grid `width`
      cells wide: grid `k` is as wide and as high as region `k` and holds
      its cells row by row. */
  ghost predicate CopiesRegions(bases: seq<Base>, cells: seq<Block>, width: int, rs: seq<Region>)
    reads bases
  {
    |bases| == |rs| &&
    forall k :: 0 <= k < |rs| ==>
      bases[k].width == rs[k].w && bases[k].height == rs[k].h && CopyOf(bases[k].blocks, cells, width, rs[k])
  }

  lemma CopiesSnoc(bases: seq<Base>, tile: Base, cells: seq<Block>, width: int, rs: seq<Region>, r: Region)
    requires CopiesRegions(bases, cells, width, rs)
    requires tile.width == r.w && tile.height == r.h && CopyOf(tile.blocks, cells, width, r)
    ensures CopiesRegions(bases + [tile], cells, width, rs + [r])
  {
    assert forall k :: 0 <= k < |rs| ==> (bases + [tile])[k] == bases[k] && (rs + [r])[k] == rs[k];
  }

  /** One more tile of a row of tiles. */
  lemma CopiesRowSnoc(bases: seq<Base>, tile: Base, above: seq<Base>, cells: seq<Block>, width: int,
                      done: seq<Region>, row: seq<Region>, r: Region)
    requires CopiesRegions(bases, cells, width, done + row) && |bases| >= |above| && bases[..|above|] == above
    requires tile.width == r.w && tile.height == r.h && CopyOf(tile.blocks, cells, width, r)
    ensures CopiesRegions(bases + [tile], cells, width, done + (row + [r]))
    ensures (bases + [tile])[..|above|] == above
  {
    CopiesSnoc(bases, tile, cells, width, done + row, r);
    AppendAssoc(done, row, [r]);
    PrefixSnoc(bases, tile, |above|);
  }

  /** `DivideBase`: cuts the grid into `numX` by `numY` tiles, row of tiles
      by row of tiles, tile `(i, j)` starting at `(i*wD, j*hD)` with
      `wD = width / numX` and `hD = height / numY`, `wD` by `hD` cells
      except that the last column and the last row of tiles take what
      remains. Each tile is a new grid holding a copy of its region. */
  method DivideBase(base: Base, numX: int, numY: int) returns (bases: seq<Base>)
    requires base.Shaped() && 1 <= numX && 1 <= numY
    ensures |bases| == numX * numY
    ensures forall k :: 0 <= k < |bases| ==> fresh(bases[k])
    ensures CopiesRegions(bases, base.blocks, base.width, RowMajorTiles(base.width, base.height, numX, numY, numY))
  {
    var w, h := base.width, base.height;
    var wD, hD := w / numX, h / numY;
    bases := [];
    for j := 0 to numY
      invariant forall k :: 0 <= k < |bases| ==> fresh(bases[k])
      invariant CopiesRegions(bases, base.blocks, w, RowMajorTiles(w, h, numX, numY, j))
    {
      bases := CutRow(base, numX, numY, wD, hD, j, bases);
    }
  }

  /** The inner loop of `DivideBase`: the tiles of row `j`, left to right,
      appended to those of the rows above. */
  method CutRow(base: Base, numX: int, numY: int, wD: int, hD: int, j: int, above: seq<Base>) returns (bases: seq<Base>)
    requires base.Shaped() && 1 <= numX && 1 <= numY && 0 <= j < numY
    requires wD == base.width / numX && hD == base.height / numY
    requires CopiesRegions(above, base.blocks, base.width, RowMajorTiles(base.width, base.height, numX, numY, j))
    ensures CopiesRegions(bases, base.blocks, base.width, RowMajorTiles(base.width, base.height, numX, numY, j + 1))
    ensures |bases| >= |above| && bases[..|above|] == above
    ensures forall k :: |above| <= k < |bases| ==> fresh(bases[k])
  {
    var w, h := base.width, base.height;
    ghost var done := RowMajorTiles(w, h, numX, numY, j);
    bases := above;
    for i := 0 to numX
      invariant |bases| >= |above| && bases[..|above|] == above
      invariant forall k :: |above| <= k < |bases| ==> fresh(bases[k])
      invariant CopiesRegions(bases, base.blocks, w, done + TileRow(w, h, numX, numY, j, i))
    {
      ghost var r := TileRegion(w, h, numX, numY, i, j);
      var tile := CutTile(base, numX, numY, wD, hD, i, j);
      CopiesRowSnoc(bases, tile, above, base.blocks, w, done, TileRow(w, h, numX, numY, j, i), r);
      assert TileRow(w, h, numX, numY, j, i + 1) == TileRow(w, h, numX, numY, j, i) + [r];
      bases := bases + [tile];
    }
    assert done + TileRow(w, h, numX, numY, j, numX) == RowMajorTiles(w, h, numX, numY, j + 1);
  }

  /** The body of `DivideBase`'s loops: tile `(i, j)`, its corner and its
      size chosen by whether it is in the last column or the last row,
      copied into a new grid. */
  method CutTile(base: Base, numX: int, numY: int, wD: int, hD: int, i: int, j: int) returns (tile: Base)
    requires base.Shaped() && 1 <= numX && 1 <= numY && 0 <= i < numX && 0 <= j < numY
    requires wD == base.width / numX && hD == base.height / numY
    ensures fresh(tile)
    ensures var r := TileRegion(base.width, base.height, numX, numY, i, j);
            tile.width == r.w && tile.height == r.h && CopyOf(tile.blocks, base.blocks, base.width, r)
  {
    var w, h := base.width, base.height;
    var curX, curY := i * wD, j * hD;
    var curW, curH;
    if i == numX - 1 {
      if j == numY - 1 {
        curW, curH := w - i * wD, h - j * hD;
      } else {
        curW, curH := w - i * wD, hD;
      }
    } else if j == numY - 1 {
      curW, curH := wD, h - j * hD;
    } else {
      curW, curH := wD, hD;
    }
    assert Region(curX, curY, curW, curH) == TileRegion(w, h, numX, numY, i, j);
    TileInside(w, h, numX, numY, i, j);
    var blocks := CopySubMatrix(base, curX, curY, curW, curH);
    tile := new Base.FromBlocks(blocks, curW, curH);
  }

  /** The tiles `DivideBase` makes, cut at least one cell wide and high,
      form a well-formed tiling by the extents of the cut whose merge is
      the grid they were cut from. */
  lemma DividedTiled(bases: seq<Base>, base: Base, numX: int, numY: int)
    requires base.Shaped() && 1 <= numX <= base.width && 1 <= numY <= base.height
    requires CopiesRegions(bases, base.blocks, base.width, RowMajorTiles(base.width, base.height, numX, numY, numY))
    ensures var cw, rh := Extents(base.width, numX), Extents(base.height, numY);
            TiledBases(bases, cw, rh) && Start(cw, |cw|) == base.width && Start(rh, |rh|) == base.height &&
            MergeSpec(Contents(bases), cw, rh) == base.blocks
  {
    var w, h := base.width, base.height;
    var cw, rh := Extents(w, numX), Extents(h, numY);
    var rs := RowMajorTiles(w, h, numX, numY, numY);
    var tiles := Contents(bases);
    assert CopiesOf(tiles, base.blocks, w, rs);
    DivideMerge(tiles, base.blocks, w, h, numX, numY);
    RowMajorTiledBy(w, h, numX, numY);
    ExtentsStart(w, numX, numX);
    ExtentsStart(h, numY, numY);
    forall c, r | 0 <= c < |cw| && 0 <= r < |rh|
      ensures 0 <= Index(|cw|, c, r) < |bases| &&
              bases[Index(|cw|, c, r)].width == cw[c] && bases[Index(|cw|, c, r)].height == rh[r]
    {
      assert rs[Index(numX, c, r)] == Region(Start(cw, c), Start(rh, r), cw[c], rh[r]);
    }
  }

  /** Cutting a grid at least one cell wide and high into tiles and merging
      the tiles back gives the grid again, block for block. */
  method DivideAndMerge(base: Base, numX: int, numY: int) returns (merged: Base)
    requires base.Shaped() && 1 <= numX <= base.width && 1 <= numY <= base.height
    ensures merged.width == base.width && merged.height == base.height
    ensures merged.blocks == base.blocks
  {
    var bases := DivideBase(base, numX, numY);
    DividedTiled(bases, base, numX, numY);
    merged := new Base.Merge(bases, base.width, base.height, Extents(base.width, numX), Extents(base.height, numY));
  }

  /** `main` hands `DivideBase` the counts it read, unchecked. Cut in 4
      across a grid 3 wide, the first three tiles are 0 wide: no list of
      tiles of those widths is a tiling the merge can walk, and the merge's
      first step (`0 >= 0 + width of tile 0`) moves on to tile 1, which
      has no block to read. */
  lemma OversizedCountNotTiled(bases: seq<Base>, rh: seq<int>, height: int)
    ensures Extents(3, 4) == [0, 0, 0, 3]
    ensures !TiledBases(bases, Extents(3, 4), rh)
    ensures 0 >= Start(Extents(3, 4), 0) + Extents(3, 4)[0] && Extents(3, 4)[1] * height == 0
  {
    assert Extents(3, 4)[0] == 0;
    assert !Positive(Extents(3, 4));
  }

  /** The divide and merge of `main` with the counts checked first: counts
      outside `1..width` and `1..height` are refused, and the grid is
      returned as it is; any other counts cut the grid and merge the tiles
      back into the same grid. */
  method CheckedDivideAndMerge(base: Base, numX: int, numY: int) returns (ok: bool, merged: Base)
    requires base.Shaped()
    ensures ok <==> 1 <= numX <= base.width && 1 <= numY <= base.height
    ensures ok ==> merged.width == base.width && merged.height == base.height && merged.blocks == base.blocks
    ensures !ok ==> merged == base
  {
    if !(1 <= numX <= base.width && 1 <= numY <= base.height) {
      return false, base;
    }
    merged := DivideAndMerge(base, numX, numY);
    ok := true;
  }

  // ---------------------------------------------------------------------
  // The solved grid.

  /** The block `FillSolvedBase` writes for `b` when the value of its cell's
      variable is `sel`: a missing block stays missing, any other keeps
      its class and is selected exactly when `sel` holds. */
  function Decorated(b: Block, sel: bool): (d: Block)
    ensures KindOf(d) == KindOf(b)
    ensures IsSelected(d) <==> sel && b != DoNotExists
  {
    match b
    case DoNotExists => DoNotExists
    case Regular | SelectedRegular => if sel then SelectedRegular else Regular
    case Ham | SelectedHam => if sel then SelectedHam else Ham
  }

  /** The blocks of the solved grid: block `k` decorated by `a(Cell(k))`. */
  function Decorate(bs: seq<Block>, a: Assignment): (d: seq<Block>)
    ensures |d| == |bs| && forall k :: 0 <= k < |bs| ==> d[k] == Decorated(bs[k], a(Cell(k)))
  {
    seq(|bs|, k requires 0 <= k < |bs| => Decorated(bs[k], a(Cell(k))))
  }

  /** Decorating keeps every block's class, so the solved grid has the
      input's counters. */
  lemma DecorateTally(bs: seq<Block>, a: Assignment)
    ensures Kinds(Decorate(bs, a)) == Kinds(bs)
    ensures TallyOf(Decorate(bs, a)) == TallyOf(bs)
  {
    assert Kinds(Decorate(bs, a)) == Kinds(bs);
    TallyCounts(bs);
    TallyCounts(Decorate(bs, a));
  }

  /** The number of selected blocks. */
  function NumSelected(bs: seq<Block>): (n: nat)
    ensures n <= |bs|
  {
    if bs == [] then 0 else NumSelected(bs[..|bs| - 1]) + (if IsSelected(bs[|bs| - 1]) then 1 else 0)
  }

  /** Where missing cells are 0, the objective counts the selected blocks of
      the solved grid. */
  lemma {:induction false} ObjectiveCounts(bs: seq<Block>, a: Assignment)
    requires forall k :: 0 <= k < |bs| && bs[k] == DoNotExists ==> !a(Cell(k))
    ensures Sum(CellRange(|bs|), a) == NumSelected(Decorate(bs, a))
    decreases |bs|
  {
    if bs != [] {
      var init := bs[..|bs| - 1];
      ObjectiveCounts(init, a);
      assert Decorate(bs, a)[..|bs| - 1] == Decorate(init, a);
      assert CellRange(|bs|)[..|bs| - 1] == CellRange(|bs| - 1);
    }
  }

  /** Under any assignment satisfying the model of a grid, a block of the
      solved grid is selected exactly when its cell's variable is 1, and the
      objective is the number of selected blocks. */
  lemma SolvedGrid(bs: seq<Block>, width: int, height: int, minNumCross: int, maxRectSize: int, a: Assignment)
    requires 0 <= width && 0 <= height && |bs| == width * height
    requires Satisfies(FilteredModel(Instance(Kinds(bs), width, height, minNumCross, maxRectSize)), a)
    ensures forall k :: 0 <= k < |bs| ==> (IsSelected(Decorate(bs, a)[k]) <==> a(Cell(k)))
    ensures Sum(CellRange(|bs|), a) == NumSelected(Decorate(bs, a))
  {
    AbsentCellsZero(Instance(Kinds(bs), width, height, minNumCross, maxRectSize), a);
    AbsentBlocksZero(bs, a);
    DecoratedSelection(bs, a);
  }

  /** A missing cell of the model is a missing block of the grid. */
  lemma AbsentBlocksZero(bs: seq<Block>, a: Assignment)
    requires forall k :: 0 <= k < |Kinds(bs)| && Kinds(bs)[k] == Absent ==> !a(Cell(k))
    ensures forall k :: 0 <= k < |bs| && bs[k] == DoNotExists ==> !a(Cell(k))
  {
    forall k | 0 <= k < |bs| && bs[k] == DoNotExists ensures !a(Cell(k)) {
      assert Kinds(bs)[k] == Absent;
    }
  }

  /** When missing cells are 0, a block of the solved grid is selected
      exactly when its cell's variable is 1, and the objective is the number
      of selected blocks. */
  lemma DecoratedSelection(bs: seq<Block>, a: Assignment)
    requires forall k :: 0 <= k < |bs| && bs[k] == DoNotExists ==> !a(Cell(k))
    ensures forall k :: 0 <= k < |bs| ==> (IsSelected(Decorate(bs, a)[k]) <==> a(Cell(k)))
    ensures Sum(CellRange(|bs|), a) == NumSelected(Decorate(bs, a))
  {
    ObjectiveCounts(bs, a);
  }

  // ---------------------------------------------------------------------
  // The solver.

  /** `MISRSolver`: builds, for one grid, the model whose solutions are sets
      of non-overlapping valid rectangles, the objective counting the
      covered cells. The library's environment and model are the builder
      `model`; the block variables are `Cell(k)`, the variables of the catalog
      shape `s` are `Rect(s, ax, ay)`, so `rectsVarsArray` keeps only the
      shapes. `minNumCross` and `maxRectSize` are the program's globals. */
  class MISRSolver {
    const base: Base
    const minNumCross: int
    const maxRectSize: int
    const model: Builder
    const solvedBase: Base
    var rectsVarsArray: seq<Shape>

    /** What the model is built from. */
    function Inst(): Instance
      reads base
    {
      Instance(Kinds(base.blocks), base.width, base.height, minNumCross, maxRectSize)
    }

    predicate Valid()
      reads base
    {
      base.Shaped() && solvedBase != base
    }

    /** The constructor runs the `Init` steps in order and leaves the
        model the whole filtered model of the grid, the objective all its
        cells. */
    constructor (b: Base, minNumCross: int, maxRectSize: int)
      requires b.Shaped()
      ensures base == b && this.minNumCross == minNumCross && this.maxRectSize == maxRectSize
      ensures Valid() && fresh(model) && fresh(solvedBase)
      ensures solvedBase.blocks == [] && solvedBase.Counted()
      ensures rectsVarsArray == Catalog(maxRectSize)
      ensures model.constraints == FilteredModel(Inst())
      ensures model.objective == CellRange(|b.blocks|)
    {
      base := b;
      this.minNumCross := minNumCross;
      this.maxRectSize := maxRectSize;
      model := new Builder();
      solvedBase := new Base.Empty();
      rectsVarsArray := [];
      new;
      InitBaseVariables();
      InitRectVariables();
      InitOverlapConstraints();
      InitObjectiveFunction();
    }

    /** `blocksVars[k] == 0` for every missing block, in order. */
    method InitBaseVariables()
      requires Valid()
      modifies model
      ensures model.constraints == old(model.constraints) + ZeroAbsent(Inst().kinds, |base.blocks|)
      ensures model.objective == old(model.objective) && model.nextAux == old(model.nextAux)
    {
      ghost var kinds, c0 := Inst().kinds, model.constraints;
      for i := 0 to base.Size()
        invariant model.constraints == c0 + ZeroAbsent(kinds, i)
        invariant model.objective == old(model.objective) && model.nextAux == old(model.nextAux)
      {
        AppendAssoc(c0, ZeroAbsent(kinds, i), if kinds[i] == Absent then [IsZero(Cell(i))] else []);
        if base.blocks[i] == DoNotExists {
          model.Add(IsZero(Cell(i)));
        }
      }
    }

    /** The catalog loop: every `(i, j)` with `i*j <= maxRectSize`, widths
        first, numbered in order. */
    method InitRectVariables()
      requires Valid() && rectsVarsArray == []
      modifies this, model
      ensures rectsVarsArray == Catalog(maxRectSize)
      ensures var e := ShapesConstraints(Inst(), Filtered, Shapes(Inst()), old(model.nextAux));
              model.constraints == old(model.constraints) + e.constraints && model.nextAux == e.next
      ensures model.objective == old(model.objective)
    {
      ghost var c0, n0 := model.constraints, model.nextAux;
      var i := 1;
      while i <= maxRectSize
        invariant 1 <= i <= if maxRectSize < 1 then 1 else maxRectSize + 1
        invariant rectsVarsArray == CatalogUpTo(maxRectSize, i - 1) && PositiveShapes(rectsVarsArray)
        invariant var e := ShapesConstraints(Inst(), Filtered, rectsVarsArray, n0);
                  model.constraints == c0 + e.constraints && model.nextAux == e.next
        invariant model.objective == old(model.objective)
      {
        AddShapesOfWidth(i, c0, n0);
        i := i + 1;
      }
    }

    /** The inner loop of the catalog: the shapes `i` wide. */
    method AddShapesOfWidth(i: int, ghost c0: seq<Constraint>, ghost n0: nat)
      requires Valid() && 1 <= i && PositiveShapes(rectsVarsArray)
      requires var e := ShapesConstraints(Inst(), Filtered, rectsVarsArray, n0);
               model.constraints == c0 + e.constraints && model.nextAux == e.next
      modifies this, model
      ensures rectsVarsArray == old(rectsVarsArray) + CatalogRow(maxRectSize, i, maxRectSize)
      ensures PositiveShapes(rectsVarsArray)
      ensures var e := ShapesConstraints(Inst(), Filtered, rectsVarsArray, n0);
              model.constraints == c0 + e.constraints && model.nextAux == e.next
      ensures model.objective == old(model.objective)
    {
      var j := 1;
      while j <= maxRectSize
        invariant 1 <= j <= if maxRectSize < 1 then 1 else maxRectSize + 1
        invariant rectsVarsArray == old(rectsVarsArray) + CatalogRow(maxRectSize, i, j - 1)
        invariant PositiveShapes(rectsVarsArray)
        invariant var e := ShapesConstraints(Inst(), Filtered, rectsVarsArray, n0);
                  model.constraints == c0 + e.constraints && model.nextAux == e.next
        invariant model.objective == old(model.objective)
      {
        CatalogRowSnoc(maxRectSize, i, j - 1);
        if i * j <= maxRectSize {
          assert PositiveShapes(rectsVarsArray + [Shape(i, j)]);
          ShapesSnoc(Inst(), Filtered, rectsVarsArray, Shape(i, j), n0);
          ghost var e := ShapesConstraints(Inst(), Filtered, rectsVarsArray, n0);
          AppendAssoc(c0, e.constraints, ShapeConstraints(Inst(), Filtered, |rectsVarsArray|, i, j, e.next).constraints);
          AddRectangle(|rectsVarsArray|, i, j);
          rectsVarsArray := rectsVarsArray + [Shape(i, j)];
        }
        j := j + 1;
      }
    }

    /** `AddRectangle`: for every anchor of the `w` by `h` shape `s`, column
        by column, `rect == 0` when the rectangle there is not valid and
        `rect <= product` of its cells when it is. */
    method AddRectangle(s: int, w: int, h: int)
      requires Valid() && 1 <= w && 1 <= h
      modifies model
      ensures var e := ShapeConstraints(Inst(), Filtered, s, w, h, old(model.nextAux));
              model.constraints == old(model.constraints) + e.constraints && model.nextAux == e.next
      ensures model.objective == old(model.objective)
    {
      var matrixW := base.width - w + 1;
      ghost var inst := Inst();
      assert WellFormed(inst) && inst.width == base.width && inst.height == base.height;
      ghost var ok := AdmissibleAt(inst, Filtered, w, h);
      ghost var b := ShapeBody(inst, Filtered, s, w, h, ok);
      ghost var c0, n0 := model.constraints, model.nextAux;
      var i := 0;
      while i < matrixW
        invariant 0 <= i <= if matrixW < 0 then 0 else matrixW
        invariant model.constraints == c0 + Sweep(b, i, n0).constraints && model.nextAux == Sweep(b, i, n0).next
        invariant model.objective == old(model.objective)
      {
        ShapeStep(inst, Filtered, s, w, h, ok, i, n0);
        AppendAssoc(c0, Sweep(b, i, n0).constraints,
                    Sweep(ColumnBody(inst, Filtered, s, w, h, ok, i), inst.height - h + 1, Sweep(b, i, n0).next).constraints);
        AddAnchorColumn(s, w, h, i);
        i := i + 1;
      }
    }

    /** The inner anchor loop of `AddRectangle`: the anchors of column `ax`. */
    method AddAnchorColumn(s: int, w: int, h: int, ax: int)
      requires Valid() && 1 <= w && 1 <= h && 0 <= ax <= base.width - w
      modifies model
      ensures var e := Sweep(ColumnBody(Inst(), Filtered, s, w, h, AdmissibleAt(Inst(), Filtered, w, h), ax),
                             base.height - h + 1, old(model.nextAux));
              model.constraints == old(model.constraints) + e.constraints && model.nextAux == e.next
      ensures model.objective == old(model.objective)
    {
      var matrixH := base.height - h + 1;
      ghost var inst := Inst();
      assert WellFormed(inst) && inst.width == base.width && inst.height == base.height;
      ghost var ok := AdmissibleAt(inst, Filtered, w, h);
      ghost var b := ColumnBody(inst, Filtered, s, w, h, ok, ax);
      ghost var c0, n0 := model.constraints, model.nextAux;
      var j := 0;
      while j < matrixH
        invariant 0 <= j <= if matrixH < 0 then 0 else matrixH
        invariant c0 + Sweep(b, j, n0).constraints == model.constraints && Sweep(b, j, n0).next == model.nextAux
        invariant model.objective == old(model.objective)
      {
        ColumnStep(inst, Filtered, s, w, h, ok, ax, j, n0);
        AppendAssoc(c0, Sweep(b, j, n0).constraints,
                    AnchorConstraints(inst, Filtered, s, w, h, ax, j, ok(ax, j), Sweep(b, j, n0).next).constraints);
        AddAnchor(s, w, h, ax, j);
        j := j + 1;
      }
    }

    /** The body of the anchor loops, anchor `(ax, ay)`. */
    method AddAnchor(s: int, w: int, h: int, ax: int, ay: int)
      requires Valid() && 1 <= w && 1 <= h && IsAnchor(Inst(), w, h, ax, ay)
      modifies model
      ensures var e := AnchorConstraints(Inst(), Filtered, s, w, h, ax, ay,
                                         AdmissibleAt(Inst(), Filtered, w, h)(ax, ay), old(model.nextAux));
              model.constraints == old(model.constraints) + e.constraints && model.nextAux == e.next
      ensures model.objective == old(model.objective)
    {
      var valid := IsValidRect(ax, ay, w, h);
      if !valid {
        model.Add(IsZero(Rect(s, ax, ay)));
      } else {
        var product := AddProductConstraints(ax, ay, w, h);
        model.Add(AtMost(Rect(s, ax, ay), product));
      }
    }

    /** `IsValidRect`: scans the rectangle column by column, gives up at the
        first missing block and otherwise counts the ham blocks; the
        rectangle is valid exactly when it has no missing block and at
        least `minNumCross` ham blocks. */
    method IsValidRect(x: int, y: int, w: int, h: int) returns (valid: bool)
      requires Valid() && Inside(Inst(), x, y, w, h)
      ensures valid == ValidPlacement(Inst(), x, y, w, h)
    {
      ghost var inst := Inst();
      assert WellFormed(inst) && inst.width == base.width && inst.height == base.height;
      var sum := 0;
      for i := 0 to w
        invariant Absent !in FootprintKinds(inst, x, y, i, h)
        invariant sum == SpecialCount(inst, x, y, i, h)
      {
        var present, hams := ScanColumn(x, y, i, h);
        if !present {
          assert Absent in FootprintKinds(inst, x, y, i + 1, h);
          FootprintKindsMembers(inst, x, y, i + 1, h, Absent);
          ghost var i0, j0 :| 0 <= i0 < i + 1 && 0 <= j0 < h && KindAt(inst, x, y, i0, j0) == Absent;
          FootprintKindsMembers(inst, x, y, w, h, Absent);
          return false;
        }
        sum := sum + hams;
      }
      valid := sum >= minNumCross;
    }

    /** The inner loop of `IsValidRect`, column `x + i`: whether the column
        has no missing block, and if so how many ham blocks it has. */
    method ScanColumn(x: int, y: int, i: int, h: int) returns (present: bool, hams: int)
      requires Valid() && 0 <= x + i < base.width && 0 <= y && 0 <= h && y + h <= base.height
      ensures present <==> Absent !in ColumnKinds(Inst(), x, y, i, h)
      ensures present ==> hams == ColumnSpecials(Inst(), x, y, i, h)
    {
      ghost var inst := Inst();
      assert WellFormed(inst) && 0 <= x + i < inst.width && y + h <= inst.height;
      hams := 0;
      for j := 0 to h
        invariant Absent !in ColumnKinds(inst, x, y, i, j)
        invariant hams == ColumnSpecials(inst, x, y, i, j)
      {
        var blockType := base.Access(x + i, y + j);
        ColumnScanStep(inst, x, y, i, j, h, KindOf(blockType));
        if blockType == DoNotExists {
          return false, hams;
        } else if blockType == Ham || blockType == SelectedHam {
          hams := hams + 1;
        }
      }
      present := true;
    }

    /** `AddProductConstraints`: queues the variables of the rectangle's
        cells column by column, then multiplies the two at the front and
        queues the product until one is left; that one is the AND of the
        cells. */
    method AddProductConstraints(x: int, y: int, w: int, h: int) returns (last: Var)
      requires Valid() && 1 <= w && 1 <= h
      modifies model
      ensures var p := ProductOf(Inst(), x, y, w, h, old(model.nextAux));
              last == p.result && model.constraints == old(model.constraints) + p.constraints && model.nextAux == p.next
      ensures model.objective == old(model.objective)
    {
      var mulQueue := QueueCells(x, y, w, h);
      last := ReduceQueue(mulQueue);
    }

    /** The first loops of `AddProductConstraints`: the rectangle's cell
        variables, column by column. */
    method QueueCells(x: int, y: int, w: int, h: int) returns (mulQueue: seq<Var>)
      requires 0 <= w && 0 <= h
      ensures mulQueue == CellVars(FootprintIndices(base.width, x, y, w, h))
    {
      mulQueue := [];
      for i := 0 to w
        invariant mulQueue == CellVars(FootprintIndices(base.width, x, y, i, h))
      {
        ghost var done := FootprintIndices(base.width, x, y, i, h);
        assert done + ColumnIndices(base.width, x, y, i, 0) == done;
        for j := 0 to h
          invariant mulQueue == CellVars(done + ColumnIndices(base.width, x, y, i, j))
        {
          ColumnIndicesSnoc(base.width, x, y, i, j);
          CellVarsSnoc(done + ColumnIndices(base.width, x, y, i, j), x + i + base.width * (y + j));
          assert (done + ColumnIndices(base.width, x, y, i, j)) + [x + i + base.width * (y + j)] ==
                 done + ColumnIndices(base.width, x, y, i, j + 1);
          mulQueue := mulQueue + [Cell(x + i + base.width * (y + j))];
        }
      }
    }

    /** The last loop of `AddProductConstraints`: multiplies the two
        variables at the front of the queue and queues the product until one
        is left. */
    method ReduceQueue(queue: seq<Var>) returns (last: Var)
      requires |queue| >= 1
      modifies model
      ensures var p := Reduce(queue, old(model.nextAux));
              last == p.result && model.constraints == old(model.constraints) + p.constraints && model.nextAux == p.next
      ensures model.objective == old(model.objective)
    {
      var mulQueue := queue;
      ghost var n0 := model.nextAux;
      ghost var added: seq<Constraint> := [];
      while |mulQueue| > 1
        invariant |mulQueue| >= 1
        invariant model.constraints == old(model.constraints) + added
        invariant var p := Reduce(mulQueue, model.nextAux);
                  Reduce(queue, n0) == Product(p.result, added + p.constraints, p.next)
        invariant model.objective == old(model.objective)
        decreases |mulQueue|
      {
        mulQueue, added := MultiplyFront(mulQueue, queue, n0, old(model.constraints), added);
      }
      last := mulQueue[0];
    }

    /** One iteration of that loop: pops the two front variables, adds
        their product and pushes it. What the loop has added so far,
        followed by the reduction of what is queued, stays the reduction of
        the whole `queue`. */
    method MultiplyFront(q: seq<Var>, ghost queue: seq<Var>, ghost n0: nat, ghost c0: seq<Constraint>,
                         ghost added: seq<Constraint>) returns (mulQueue: seq<Var>, ghost added': seq<Constraint>)
      requires |q| > 1 && |queue| >= 1
      requires model.constraints == c0 + added
      requires var p := Reduce(q, model.nextAux);
               Reduce(queue, n0) == Product(p.result, added + p.constraints, p.next)
      modifies model
      ensures mulQueue == q[2..] + [Aux(old(model.nextAux))]
      ensures model.constraints == old(model.constraints) + MultConstraints(Aux(old(model.nextAux)), q[0], q[1])
      ensures model.nextAux == old(model.nextAux) + 1 && model.objective == old(model.objective)
      ensures model.constraints == c0 + added'
      ensures var p := Reduce(mulQueue, model.nextAux);
              Reduce(queue, n0) == Product(p.result, added' + p.constraints, p.next)
    {
      ghost var n := model.nextAux;
      mulQueue := q;
      var v0 := mulQueue[0];
      mulQueue := mulQueue[1..];
      var v1 := mulQueue[0];
      mulQueue := mulQueue[1..];
      var mult := AddMultConstraints(v0, v1);
      mulQueue := mulQueue + [mult];
      assert mulQueue == q[2..] + [mult];
      AppendAssoc(c0, added, MultConstraints(mult, v0, v1));
      added' := added + MultConstraints(mult, v0, v1);
      ReduceInvariantStep(queue, n0, added, q, n, mulQueue, model.nextAux, added');
    }

    /** `AddMultConstraints`: a fresh variable and the three inequalities
        that make it the product of `v0` and `v1`. */
    method AddMultConstraints(v0: Var, v1: Var) returns (res: Var)
      modifies model
      ensures res == Aux(old(model.nextAux)) && model.nextAux == old(model.nextAux) + 1
      ensures model.constraints == old(model.constraints) + MultConstraints(res, v0, v1)
      ensures model.objective == old(model.objective)
    {
      res := model.NewBoolVar();
      model.Add(AtMost(res, v0));
      model.Add(AtMost(res, v1));
      model.Add(AtLeastSumMinusOne(res, v0, v1));
    }

    /** `ConstructInclusionConstraintsAndOverlapExpr`: for cell `(x, y)` and
        the `w` by `h` shape `s`, walks the offsets `(i, j)` of the shape and
        keeps the anchors `(x - i, y - j)` in range: it adds `cell >= rect`
        for each and returns their sum. */
    method ConstructInclusionConstraintsAndOverlapExpr(x: int, y: int, s: int, w: int, h: int) returns (expr: seq<Var>)
      requires Valid()
      modifies model
      ensures expr == ShapeVars(s, Covering(Inst(), w, h, x, y))
      ensures model.constraints == old(model.constraints) + Inclusions(Cell(Index(base.width, x, y)), expr)
      ensures model.objective == old(model.objective) && model.nextAux == old(model.nextAux)
    {
      ghost var inst := Inst();
      assert WellFormed(inst) && inst.width == base.width && inst.height == base.height;
      ghost var c0 := model.constraints;
      expr := [];
      var i := 0;
      while i < w
        invariant 0 <= i <= if w < 0 then 0 else w
        invariant expr == ShapeVars(s, CoverColumns(inst, w, h, x, y, i))
        invariant model.constraints == c0 + Inclusions(Cell(Index(base.width, x, y)), expr)
        invariant model.objective == old(model.objective) && model.nextAux == old(model.nextAux)
      {
        expr := InclusionColumn(x, y, s, w, h, i, CoverColumns(inst, w, h, x, y, i), c0, expr);
        i := i + 1;
      }
    }

    /** The inner loop of `ConstructInclusionConstraintsAndOverlapExpr`: the
        offsets `(i, j)` of column `i` of the shape, after the anchors `done`
        of the earlier columns. */
    method InclusionColumn(x: int, y: int, s: int, w: int, h: int, i: int, ghost done: seq<(int, int)>,
                           ghost c0: seq<Constraint>, exprIn: seq<Var>) returns (expr: seq<Var>)
      requires Valid()
      requires exprIn == ShapeVars(s, done)
      requires model.constraints == c0 + Inclusions(Cell(Index(base.width, x, y)), exprIn)
      modifies model
      ensures expr == ShapeVars(s, done + CoverColumn(Inst(), w, h, x, y, i, h))
      ensures model.constraints == c0 + Inclusions(Cell(Index(base.width, x, y)), expr)
      ensures model.objective == old(model.objective) && model.nextAux == old(model.nextAux)
    {
      ghost var inst := Inst();
      assert WellFormed(inst) && inst.width == base.width && inst.height == base.height;
      var cell := Cell(Index(base.width, x, y));
      expr := exprIn;
      assert done + CoverColumn(inst, w, h, x, y, i, 0) == done;
      var j := 0;
      while j < h
        invariant 0 <= j <= if h < 0 then 0 else h
        invariant expr == ShapeVars(s, done + CoverColumn(inst, w, h, x, y, i, j))
        invariant model.constraints == c0 + Inclusions(cell, expr)
        invariant model.objective == old(model.objective) && model.nextAux == old(model.nextAux)
      {
        ghost var anchors := done + CoverColumn(inst, w, h, x, y, i, j);
        if x - i >= 0 && x - i < base.width - w + 1 && y - j >= 0 && y - j < base.height - h + 1 {
          ShapeVarsSnoc(s, anchors, (x - i, y - j));
          InclusionsSnoc(cell, expr, Rect(s, x - i, y - j));
          AppendAssoc(c0, Inclusions(cell, expr), [AtLeast(cell, Rect(s, x - i, y - j))]);
          AppendAssoc(done, CoverColumn(inst, w, h, x, y, i, j), [(x - i, y - j)]);
          model.Add(AtLeast(cell, Rect(s, x - i, y - j)));
          expr := expr + [Rect(s, x - i, y - j)];
        } else {
          assert CoverColumn(inst, w, h, x, y, i, j + 1) == CoverColumn(inst, w, h, x, y, i, j);
        }
        j := j + 1;
      }
    }

    /** `InitOverlapConstraints`: for every cell, column by column, the
        inclusions of every catalog shape, then `sum <= 1` and
        `cell <= sum` over the anchors covering it. */
    method InitOverlapConstraints()
      requires Valid()
      modifies model
      ensures model.constraints == old(model.constraints) + CellSweep(Inst(), rectsVarsArray, Combined)
      ensures model.objective == old(model.objective) && model.nextAux == old(model.nextAux)
    {
      ghost var inst, shapes := Inst(), rectsVarsArray;
      assert WellFormed(inst) && inst.width == base.width && inst.height == base.height;
      ghost var c0 := model.constraints;
      for i := 0 to base.width
        invariant model.constraints == c0 + CellColumns(inst, shapes, Combined, i)
        invariant model.objective == old(model.objective) && model.nextAux == old(model.nextAux)
      {
        ghost var done := CellColumns(inst, shapes, Combined, i);
        OverlapColumn(i);
        AppendAssoc(c0, done, CellColumn(inst, shapes, Combined, i, inst.height));
      }
    }

    /** The inner loop of `InitOverlapConstraints`: the cells of column `x`. */
    method OverlapColumn(x: int)
      requires Valid()
      modifies model
      ensures model.constraints == old(model.constraints) + CellColumn(Inst(), rectsVarsArray, Combined, x, base.height)
      ensures model.objective == old(model.objective) && model.nextAux == old(model.nextAux)
    {
      ghost var inst, shapes := Inst(), rectsVarsArray;
      assert WellFormed(inst) && inst.width == base.width && inst.height == base.height;
      ghost var c0 := model.constraints;
      for j := 0 to base.height
        invariant model.constraints == c0 + CellColumn(inst, shapes, Combined, x, j)
        invariant model.objective == old(model.objective) && model.nextAux == old(model.nextAux)
      {
        ghost var done := CellColumn(inst, shapes, Combined, x, j);
        CellOverlap(x, j);
        AppendAssoc(c0, done, CellConstraints(inst, shapes, Combined, x, j));
      }
    }

    /** The body of the cell loops, cell `(x, y)`. */
    method CellOverlap(x: int, y: int)
      requires Valid()
      modifies model
      ensures model.constraints == old(model.constraints) + CellConstraints(Inst(), rectsVarsArray, Combined, x, y)
      ensures model.objective == old(model.objective) && model.nextAux == old(model.nextAux)
    {
      ghost var inst, shapes := Inst(), rectsVarsArray;
      assert WellFormed(inst) && inst.width == base.width && inst.height == base.height;
      ghost var c0 := model.constraints;
      var overlapExpr: seq<Var> := [];
      for k := 0 to |rectsVarsArray|
        invariant overlapExpr == OverlapExpr(inst, shapes, x, y, k)
        invariant model.constraints == c0 + CellInclusions(inst, shapes, x, y, k)
        invariant model.objective == old(model.objective) && model.nextAux == old(model.nextAux)
      {
        var e := ConstructInclusionConstraintsAndOverlapExpr(x, y, k, rectsVarsArray[k].width, rectsVarsArray[k].height);
        AppendAssoc(c0, CellInclusions(inst, shapes, x, y, k), Inclusions(Cell(Index(inst.width, x, y)), e));
        overlapExpr := overlapExpr + e;
      }
      var cell := Cell(Index(base.width, x, y));
      ghost var incl := CellInclusions(inst, shapes, x, y, |shapes|);
      AppendAssoc(c0, incl, [SumAtMostOne(overlapExpr)]);
      AppendAssoc(c0, incl + [SumAtMostOne(overlapExpr)], [AtMostSum(cell, overlapExpr)]);
      assert (incl + [SumAtMostOne(overlapExpr)]) + [AtMostSum(cell, overlapExpr)] == incl + [SumAtMostOne(overlapExpr), AtMostSum(cell, overlapExpr)];
      model.Add(SumAtMostOne(overlapExpr));
      model.Add(AtMostSum(cell, overlapExpr));
    }

    /** `InitObjectiveFunction`: maximize the sum of all block variables. */
    method InitObjectiveFunction()
      requires Valid()
      modifies model
      ensures model.objective == CellRange(|base.blocks|)
      ensures model.constraints == old(model.constraints) && model.nextAux == old(model.nextAux)
    {
      var objExpr: seq<Var> := [];
      for i := 0 to base.Size()
        invariant objExpr == CellRange(i)
      {
        objExpr := objExpr + [Cell(i)];
      }
      model.Maximize(objExpr);
    }

    /** `FillSolvedBase`: gives the solved grid the input's dimensions and
        appends every block decorated by the value of its variable. */
    method FillSolvedBase(a: Assignment)
      requires Valid()
      modifies solvedBase
      ensures solvedBase.width == base.width && solvedBase.height == base.height
      ensures solvedBase.blocks == old(solvedBase.blocks) + Decorate(base.blocks, a)
      ensures old(solvedBase.Counted()) ==> solvedBase.Counted()
    {
      solvedBase.width := base.width;
      solvedBase.height := base.height;
      ghost var d := Decorate(base.blocks, a);
      for i := 0 to base.Size()
        invariant solvedBase.blocks == old(solvedBase.blocks) + d[..i]
        invariant solvedBase.width == base.width && solvedBase.height == base.height
        invariant old(solvedBase.Counted()) ==> solvedBase.Counted()
      {
        match base.blocks[i] {
          case DoNotExists =>
            solvedBase.AddBlock(DoNotExists);
          case SelectedRegular | Regular =>
            if !a(Cell(i)) {
              solvedBase.AddBlock(Regular);
            } else {
              solvedBase.AddBlock(SelectedRegular);
            }
          case SelectedHam | Ham =>
            if !a(Cell(i)) {
              solvedBase.AddBlock(Ham);
            } else {
              solvedBase.AddBlock(SelectedHam);
            }
        }
        assert d[..i + 1] == d[..i] + [d[i]];
      }
      assert d[..|base.blocks|] == d;
    }

    /** `Solve`: the library's search is not modelled; whether it found a
        solution and the solution `a` are its inputs, `a` satisfying the
        model the constructor built. With a solution the solved grid is
        filled: a block is selected exactly when its cell is covered, and
        the objective counts the selected blocks. Without one it is left
        as it was. */
    method Solve(found: bool, a: Assignment) returns (solved: bool)
      requires Valid() && model.constraints == FilteredModel(Inst())
      requires found ==> Satisfies(model.constraints, a)
      modifies solvedBase
      ensures solved == found
      ensures found ==> forall k :: 0 <= k < |base.blocks| ==> (IsSelected(Decorate(base.blocks, a)[k]) <==> a(Cell(k)))
      ensures found ==> Sum(CellRange(|base.blocks|), a) == NumSelected(Decorate(base.blocks, a))
      ensures found ==> solvedBase.width == base.width && solvedBase.height == base.height &&
                        solvedBase.blocks == old(solvedBase.blocks) + Decorate(base.blocks, a)
      ensures !found ==> unchanged(solvedBase)
      ensures old(solvedBase.Counted()) ==> solvedBase.Counted()
    {
      if !found {
        return false;
      }
      SolvedGrid(base.blocks, base.width, base.height, minNumCross, maxRectSize, a);
      FillSolvedBase(a);
      return true;
    }
  }
}
