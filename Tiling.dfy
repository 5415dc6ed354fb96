/** Splitting a grid into `numX` by `numY` tiles and putting it back
    together. Along each axis the tiles are `total / num` cells long except
    the last, which takes what remains; the merge walks a row of tiles by
    their widths and a column of tiles by their heights. */
module Tiling {
  import opened Indexing

  // ---------------------------------------------------------------------
  // One axis.

  /** Where tile `i` of `num` starts along an axis `total` cells long:
      `i * (total / num)`. */
  function TileStart(total: int, num: int, i: int): int
    requires num >= 1
  {
    i * (total / num)
  }

  /** How long tile `i` is: `total / num`, the last one `total - i*(total/num)`. */
  function TileExtent(total: int, num: int, i: int): int
    requires num >= 1
  {
    if i == num - 1 then total - i * (total / num) else total / num
  }

  /** The extents of all `num` tiles of an axis, in order. */
  function Extents(total: int, num: int): (r: seq<int>)
    requires num >= 1
    ensures |r| == num
  {
    seq(num, i => TileExtent(total, num, i))
  }

  /** The tiles along an axis have non-negative extents, all but the last
      `total / num`; no tile is empty when `num <= total`. */
  lemma ExtentFacts(total: int, num: int, i: int)
    requires 0 <= total && 1 <= num && 0 <= i < num
    ensures 0 <= TileExtent(total, num, i)
    ensures num <= total ==> TileExtent(total, num, i) >= 1
  {
    var d := total / num;
    if i == num - 1 {
      assert num * d <= total;
      MulMonotone(d, i, num);
    } else if num <= total {
      assert d >= 1;
    }
  }

  // ---------------------------------------------------------------------
  // Start and owner of a position over any list of extents.

  /** The start of piece `k`: the sum of the extents before it. */
  function Start(ext: seq<int>, k: int): int
    requires 0 <= k <= |ext|
    decreases k
  {
    if k == 0 then 0 else Start(ext, k - 1) + ext[k - 1]
  }

  /** All extents are at least 1. */
  predicate Positive(ext: seq<int>) {
    forall k :: 0 <= k < |ext| ==> ext[k] >= 1
  }

  /** Pieces further on start no earlier. */
  lemma {:induction false} StartMonotone(ext: seq<int>, k: int, l: int)
    requires forall p :: 0 <= p < |ext| ==> ext[p] >= 0
    requires 0 <= k <= l <= |ext|
    ensures Start(ext, k) <= Start(ext, l)
    decreases l
  {
    if k < l {
      StartMonotone(ext, k, l - 1);
    }
  }

  /** The piece of `ext` that position `x` falls in, searching from `k`: the
      first piece `k' >= k` that ends after `x`, or the last. */
  function OwnerFrom(ext: seq<int>, x: int, k: int): (o: int)
    requires 0 <= k < |ext|
    ensures k <= o < |ext|
    decreases |ext| - k
  {
    if k == |ext| - 1 || x < Start(ext, k + 1) then k else OwnerFrom(ext, x, k + 1)
  }

  function Owner(ext: seq<int>, x: int): (o: int)
    requires |ext| >= 1
    ensures 0 <= o < |ext|
  {
    OwnerFrom(ext, x, 0)
  }

  lemma {:induction false} OwnerFromFacts(ext: seq<int>, x: int, k: int)
    requires forall p :: 0 <= p < |ext| ==> ext[p] >= 0
    requires 0 <= k < |ext| && Start(ext, k) <= x < Start(ext, |ext|)
    ensures k <= OwnerFrom(ext, x, k) < |ext|
    ensures Start(ext, OwnerFrom(ext, x, k)) <= x < Start(ext, OwnerFrom(ext, x, k) + 1)
    decreases |ext| - k
  {
    if k < |ext| - 1 && x >= Start(ext, k + 1) {
      OwnerFromFacts(ext, x, k + 1);
    }
  }

  /** Every position of the axis lies in its owner's piece ... */
  lemma OwnerFacts(ext: seq<int>, x: int)
    requires forall p :: 0 <= p < |ext| ==> ext[p] >= 0
    requires |ext| >= 1 && 0 <= x < Start(ext, |ext|)
    ensures 0 <= Owner(ext, x) < |ext|
    ensures Start(ext, Owner(ext, x)) <= x < Start(ext, Owner(ext, x)) + ext[Owner(ext, x)]
  {
    OwnerFromFacts(ext, x, 0);
  }

  /** ... and in no other piece: the pieces are disjoint. */
  lemma OwnerUnique(ext: seq<int>, x: int, k: int)
    requires forall p :: 0 <= p < |ext| ==> ext[p] >= 0
    requires 0 <= k < |ext| && Start(ext, k) <= x < Start(ext, k) + ext[k]
    ensures Owner(ext, x) == k
  {
    StartMonotone(ext, 0, k);
    StartMonotone(ext, k + 1, |ext|);
    OwnerFacts(ext, x);
    var o := Owner(ext, x);
    if o < k {
      StartMonotone(ext, o + 1, k);
    } else if o > k {
      StartMonotone(ext, k + 1, o);
    }
  }

  /** Owners advance one piece at a time when no piece is empty: this is
      the merge's `if ( i >= accWidth + width ) { accWidth += width; ++k; }`. */
  lemma OwnerStep(ext: seq<int>, x: int)
    requires Positive(ext) && |ext| >= 1 && 0 <= x && x + 1 < Start(ext, |ext|)
    ensures Owner(ext, x + 1) ==
            if x + 1 >= Start(ext, Owner(ext, x)) + ext[Owner(ext, x)] then Owner(ext, x) + 1 else Owner(ext, x)
  {
    OwnerFacts(ext, x);
    var o := Owner(ext, x);
    if x + 1 >= Start(ext, o) + ext[o] {
      assert Start(ext, o + 1) == Start(ext, o) + ext[o];
      OwnerUnique(ext, x + 1, o + 1);
    } else {
      OwnerUnique(ext, x + 1, o);
    }
  }

  /** One step of the merge's walk along an axis: the piece `o` that the
      previous position fell in (the first piece for position 0) is left
      exactly when `x` reaches its end. */
  lemma OwnerAdvance(ext: seq<int>, x: int, o: int)
    requires Positive(ext) && |ext| >= 1 && 0 <= x < Start(ext, |ext|)
    requires o == Owner(ext, if x == 0 then 0 else x - 1)
    ensures 0 <= o < |ext|
    ensures (if x >= Start(ext, o) + ext[o] then o + 1 else o) == Owner(ext, x)
    ensures x >= Start(ext, o) + ext[o] ==> Start(ext, o + 1) == Start(ext, o) + ext[o]
  {
    if x == 0 {
      OwnerZero(ext);
    } else {
      OwnerStep(ext, x - 1);
    }
  }

  /** The owner of the first position is the first piece. */
  lemma OwnerZero(ext: seq<int>)
    requires Positive(ext) && |ext| >= 1
    ensures Owner(ext, 0) == 0
  {
    OwnerUnique(ext, 0, 0);
  }

  // ---------------------------------------------------------------------
  // The tiles of `DivideBase` along one axis.

  /** Tile `k` starts at `k * (total / num)`, and together the tiles span
      the axis. */
  lemma {:induction false} ExtentsStart(total: int, num: int, k: int)
    requires 0 <= total && 1 <= num && 0 <= k <= num
    ensures Start(Extents(total, num), k) == if k == num then total else TileStart(total, num, k)
    decreases k
  {
    if k > 0 {
      ExtentsStart(total, num, k - 1);
      assert TileStart(total, num, k - 1) + total / num == TileStart(total, num, k);
    }
  }

  lemma ExtentsNonNegative(total: int, num: int)
    requires 0 <= total && 1 <= num
    ensures forall p :: 0 <= p < |Extents(total, num)| ==> Extents(total, num)[p] >= 0
    ensures num <= total ==> Positive(Extents(total, num))
  {
    forall p | 0 <= p < num ensures Extents(total, num)[p] >= 0 && (num <= total ==> Extents(total, num)[p] >= 1) {
      ExtentFacts(total, num, p);
    }
  }

  /** The tiles of an axis do not overlap and leave nothing out: position
      `x` lies in tile `i` exactly when `i` is its owner. */
  lemma AxisCover(total: int, num: int, x: int, i: int)
    requires 0 <= total && 1 <= num && 0 <= x < total && 0 <= i < num
    ensures 0 <= Owner(Extents(total, num), x) < num
    ensures TileStart(total, num, i) <= x < TileStart(total, num, i) + TileExtent(total, num, i) <==>
            i == Owner(Extents(total, num), x)
  {
    var ext := Extents(total, num);
    ExtentsNonNegative(total, num);
    ExtentsStart(total, num, num);
    ExtentsStart(total, num, i);
    OwnerFacts(ext, x);
    if TileStart(total, num, i) <= x < TileStart(total, num, i) + TileExtent(total, num, i) {
      OwnerUnique(ext, x, i);
    } else {
      var o := Owner(ext, x);
      ExtentsStart(total, num, o);
    }
  }

  // ---------------------------------------------------------------------
  // Tiles of the grid.

  /** A rectangle of cells: origin `(x, y)`, `w` wide and `h` high. */
  datatype Region = Region(x: int, y: int, w: int, h: int)

  /** Tile `(i, j)` of a `width` by `height` grid cut `numX` by `numY`. */
  function TileRegion(width: int, height: int, numX: int, numY: int, i: int, j: int): Region
    requires numX >= 1 && numY >= 1
  {
    Region(TileStart(width, numX, i), TileStart(height, numY, j),
           TileExtent(width, numX, i), TileExtent(height, numY, j))
  }

  predicate RegionContains(r: Region, x: int, y: int) {
    r.x <= x < r.x + r.w && r.y <= y < r.y + r.h
  }

  /** Every cell of the grid lies in exactly one tile, the one owning its
      column and its row. */
  lemma GridCover(width: int, height: int, numX: int, numY: int, x: int, y: int, i: int, j: int)
    requires 0 <= width && 0 <= height && 1 <= numX && 1 <= numY
    requires 0 <= x < width && 0 <= y < height && 0 <= i < numX && 0 <= j < numY
    ensures RegionContains(TileRegion(width, height, numX, numY, i, j), x, y) <==>
            i == Owner(Extents(width, numX), x) && j == Owner(Extents(height, numY), y)
  {
    AxisCover(width, numX, x, i);
    AxisCover(height, numY, y, j);
  }

  /** A tile of an axis lies inside it. */
  lemma AxisInside(total: int, num: int, i: int)
    requires 0 <= total && 1 <= num && 0 <= i < num
    ensures 0 <= TileStart(total, num, i) && 0 <= TileExtent(total, num, i)
    ensures TileStart(total, num, i) + TileExtent(total, num, i) <= total
  {
    ExtentFacts(total, num, i);
    ExtentsNonNegative(total, num);
    ExtentsStart(total, num, i);
    ExtentsStart(total, num, i + 1);
    ExtentsStart(total, num, num);
    StartMonotone(Extents(total, num), 0, i);
    StartMonotone(Extents(total, num), i + 1, num);
  }

  /** A tile lies inside the grid. */
  lemma TileInside(width: int, height: int, numX: int, numY: int, i: int, j: int)
    requires 0 <= width && 0 <= height && 1 <= numX && 1 <= numY && 0 <= i < numX && 0 <= j < numY
    ensures var r := TileRegion(width, height, numX, numY, i, j);
            0 <= r.x && 0 <= r.w && r.x + r.w <= width && 0 <= r.y && 0 <= r.h && r.y + r.h <= height
  {
    AxisInside(width, numX, i);
    AxisInside(height, numY, j);
  }

  /** The tiles of the rows `j < n`, row by row, `for j { for i }`:
      `MISRSolver.cpp`'s order. */
  function RowMajorTiles(width: int, height: int, numX: int, numY: int, n: int): (r: seq<Region>)
    requires numX >= 1 && numY >= 1
    ensures |r| == if n <= 0 then 0 else numX * n
    decreases n
  {
    if n <= 0 then [] else RowMajorTiles(width, height, numX, numY, n - 1) + TileRow(width, height, numX, numY, n - 1, numX)
  }

  /** Tiles `(0, j)` .. `(n - 1, j)`. */
  function TileRow(width: int, height: int, numX: int, numY: int, j: int, n: int): (r: seq<Region>)
    requires numX >= 1 && numY >= 1
    ensures |r| == if n <= 0 then 0 else n
    decreases n
  {
    if n <= 0 then [] else TileRow(width, height, numX, numY, j, n - 1) + [TileRegion(width, height, numX, numY, n - 1, j)]
  }

  /** The tiles of the columns `i < n`, column by column, `for i { for j }`:
      the order of the other two programs. */
  function ColumnMajorTiles(width: int, height: int, numX: int, numY: int, n: int): (r: seq<Region>)
    requires numX >= 1 && numY >= 1
    ensures |r| == if n <= 0 then 0 else numY * n
    decreases n
  {
    if n <= 0 then [] else ColumnMajorTiles(width, height, numX, numY, n - 1) + TileColumn(width, height, numX, numY, n - 1, numY)
  }

  /** Tiles `(i, 0)` .. `(i, n - 1)`. */
  function TileColumn(width: int, height: int, numX: int, numY: int, i: int, n: int): (r: seq<Region>)
    requires numX >= 1 && numY >= 1
    ensures |r| == if n <= 0 then 0 else n
    decreases n
  {
    if n <= 0 then [] else TileColumn(width, height, numX, numY, i, n - 1) + [TileRegion(width, height, numX, numY, i, n - 1)]
  }

  lemma {:induction false} TileRowAt(width: int, height: int, numX: int, numY: int, j: int, n: int, i: int)
    requires numX >= 1 && numY >= 1 && 0 <= i < n
    ensures |TileRow(width, height, numX, numY, j, n)| == n
    ensures TileRow(width, height, numX, numY, j, n)[i] == TileRegion(width, height, numX, numY, i, j)
    decreases n
  {
    if i < n - 1 {
      TileRowAt(width, height, numX, numY, j, n - 1, i);
    }
  }

  lemma {:induction false} TileColumnAt(width: int, height: int, numX: int, numY: int, i: int, n: int, j: int)
    requires numX >= 1 && numY >= 1 && 0 <= j < n
    ensures |TileColumn(width, height, numX, numY, i, n)| == n
    ensures TileColumn(width, height, numX, numY, i, n)[j] == TileRegion(width, height, numX, numY, i, j)
    decreases n
  {
    if j < n - 1 {
      TileColumnAt(width, height, numX, numY, i, n - 1, j);
    }
  }

  /** Row-major order: there are `numX * n` tiles and tile `(i, j)` sits at
      position `i + numX*j`. */
  lemma {:induction false} RowMajorTilesAt(width: int, height: int, numX: int, numY: int, n: int, i: int, j: int)
    requires numX >= 1 && numY >= 1 && 0 <= n && 0 <= i < numX && 0 <= j < n
    ensures |RowMajorTiles(width, height, numX, numY, n)| == numX * n
    ensures 0 <= Index(numX, i, j) < numX * n
    ensures RowMajorTiles(width, height, numX, numY, n)[Index(numX, i, j)] == TileRegion(width, height, numX, numY, i, j)
    decreases n
  {
    IndexInRange(numX, n, i, j);
    TileRowAt(width, height, numX, numY, n - 1, numX, i);
    if j < n - 1 {
      RowMajorTilesAt(width, height, numX, numY, n - 1, i, j);
    } else {
      assert Index(numX, i, j) == numX * (n - 1) + i;
    }
  }

  /** Column-major order: tile `(i, j)` sits at position `i*numY + j`,
      the index of cell `(j, i)` of a grid `numY` wide. */
  lemma {:induction false} ColumnMajorTilesAt(width: int, height: int, numX: int, numY: int, n: int, i: int, j: int)
    requires numX >= 1 && numY >= 1 && 0 <= n && 0 <= i < n && 0 <= j < numY
    ensures |ColumnMajorTiles(width, height, numX, numY, n)| == numY * n
    ensures 0 <= Index(numY, j, i) < numY * n
    ensures ColumnMajorTiles(width, height, numX, numY, n)[Index(numY, j, i)] == TileRegion(width, height, numX, numY, i, j)
    decreases n
  {
    IndexInRange(numY, n, j, i);
    TileColumnAt(width, height, numX, numY, n - 1, numY, j);
    if i < n - 1 {
      ColumnMajorTilesAt(width, height, numX, numY, n - 1, i, j);
    } else {
      assert Index(numY, j, i) == numY * (n - 1) + j;
    }
  }

  /** The summed area `w*h` of a list of regions. */
  function Area(rs: seq<Region>): int
    decreases |rs|
  {
    if rs == [] then 0 else Area(rs[..|rs| - 1]) + rs[|rs| - 1].w * rs[|rs| - 1].h
  }

  lemma {:induction false} AreaAppend(s: seq<Region>, t: seq<Region>)
    ensures Area(s + t) == Area(s) + Area(t)
    decreases |t|
  {
    if t == [] {
      assert s + t == s;
    } else {
      assert (s + t)[..|s + t| - 1] == s + t[..|t| - 1];
      AreaAppend(s, t[..|t| - 1]);
    }
  }

  lemma AreaSnoc(rs: seq<Region>, t: Region)
    ensures Area(rs + [t]) == Area(rs) + t.w * t.h
  {
    assert (rs + [t])[..|rs|] == rs;
  }

  lemma Distribute(a: int, b: int, c: int)
    ensures a * b + a * c == a * (b + c)
  {
  }

  lemma DistributeRight(a: int, c: int, b: int)
    ensures a * b + c * b == (a + c) * b
  {
  }

  /** Tile column `i`, rows `j < n`, has area `extent_i * Start(heights, n)`. */
  lemma {:induction false} ColumnArea(width: int, height: int, numX: int, numY: int, i: int, n: int)
    requires numX >= 1 && numY >= 1 && 0 <= n <= numY
    ensures Area(TileColumn(width, height, numX, numY, i, n)) ==
            TileExtent(width, numX, i) * Start(Extents(height, numY), n)
    decreases n
  {
    if n > 0 {
      var c := TileColumn(width, height, numX, numY, i, n - 1);
      var t := TileRegion(width, height, numX, numY, i, n - 1);
      ColumnArea(width, height, numX, numY, i, n - 1);
      AreaSnoc(c, t);
      Distribute(TileExtent(width, numX, i), Start(Extents(height, numY), n - 1), TileExtent(height, numY, n - 1));
    }
  }

  lemma {:induction false} ColumnsArea(width: int, height: int, numX: int, numY: int, n: int)
    requires numX >= 1 && numY >= 1 && 0 <= n <= numX
    ensures Area(ColumnMajorTiles(width, height, numX, numY, n)) ==
            Start(Extents(width, numX), n) * Start(Extents(height, numY), numY)
    decreases n
  {
    if n > 0 {
      var cs, col := ColumnMajorTiles(width, height, numX, numY, n - 1), TileColumn(width, height, numX, numY, n - 1, numY);
      var a, b, e := Start(Extents(width, numX), n - 1), Start(Extents(height, numY), numY), TileExtent(width, numX, n - 1);
      assert Area(cs) == a * b by { ColumnsArea(width, height, numX, numY, n - 1); }
      assert Area(col) == e * b by { ColumnArea(width, height, numX, numY, n - 1, numY); }
      assert Area(cs + col) == Area(cs) + Area(col) by { AreaAppend(cs, col); }
      assert Start(Extents(width, numX), n) == a + e;
      DistributeRight(a, e, b);
    }
  }

  /** The tiles' areas add up to the grid's. */
  lemma TileAreas(width: int, height: int, numX: int, numY: int)
    requires 0 <= width && 0 <= height && numX >= 1 && numY >= 1
    ensures Area(ColumnMajorTiles(width, height, numX, numY, numX)) == width * height
  {
    ColumnsArea(width, height, numX, numY, numX);
    ExtentsStart(width, numX, numX);
    ExtentsStart(height, numY, numY);
  }

  // ---------------------------------------------------------------------
  // Copying a tile out and merging tiles back.

  /** The row-major copy of region `r` of a grid `width` cells wide. */
  function RowMajorCopy<T>(cells: seq<T>, width: int, r: Region): (c: seq<T>)
    requires 0 <= r.w && 0 <= r.h && InRange(RowMajorIndices(width, r.x, r.y, r.w, r.h), |cells|)
    ensures |c| == r.w * r.h
  {
    Gather(cells, RowMajorIndices(width, r.x, r.y, r.w, r.h))
  }

  /** `tiles` is a well-formed tiling: `|cw|` columns of the given widths and
      `|rh|` rows of the given heights, none empty, tile `(c, r)` at position
      `c + |cw|*r` holding `cw[c] * rh[r]` cells row by row. */
  predicate WellTiled<T>(tiles: seq<seq<T>>, cw: seq<int>, rh: seq<int>) {
    |cw| >= 1 && |rh| >= 1 && Positive(cw) && Positive(rh) && |tiles| == |cw| * |rh| &&
    forall c, r {:trigger Index(|cw|, c, r)} :: 0 <= c < |cw| && 0 <= r < |rh| ==>
      0 <= Index(|cw|, c, r) < |tiles| && |tiles[Index(|cw|, c, r)]| == cw[c] * rh[r]
  }

  lemma TilePosition(cw: seq<int>, rh: seq<int>, c: int, r: int)
    requires 0 <= c < |cw| && 0 <= r < |rh|
    ensures 0 <= Index(|cw|, c, r) < |cw| * |rh|
  {
    IndexInRange(|cw|, |rh|, c, r);
  }

  /** Cell `(x, y)` of the merged grid: cell `(x - start, y - start)` of the
      tile owning its column and its row. */
  function MergeCell<T>(tiles: seq<seq<T>>, cw: seq<int>, rh: seq<int>, x: int, y: int): T
    requires WellTiled(tiles, cw, rh)
    requires 0 <= x < Start(cw, |cw|) && 0 <= y < Start(rh, |rh|)
  {
    OwnerFacts(cw, x);
    OwnerFacts(rh, y);
    var c, r := Owner(cw, x), Owner(rh, y);
    TilePosition(cw, rh, c, r);
    IndexInRange(cw[c], rh[r], x - Start(cw, c), y - Start(rh, r));
    tiles[Index(|cw|, c, r)][Index(cw[c], x - Start(cw, c), y - Start(rh, r))]
  }

  /** Which tile and which of its cells `MergeCell` reads. */
  lemma MergeCellAt<T>(tiles: seq<seq<T>>, cw: seq<int>, rh: seq<int>, x: int, y: int)
    requires WellTiled(tiles, cw, rh)
    requires 0 <= x < Start(cw, |cw|) && 0 <= y < Start(rh, |rh|)
    ensures var c, r := Owner(cw, x), Owner(rh, y);
            0 <= Index(|cw|, c, r) < |tiles| &&
            0 <= Index(cw[c], x - Start(cw, c), y - Start(rh, r)) < |tiles[Index(|cw|, c, r)]| &&
            MergeCell(tiles, cw, rh, x, y) == tiles[Index(|cw|, c, r)][Index(cw[c], x - Start(cw, c), y - Start(rh, r))]
  {
    OwnerFacts(cw, x);
    OwnerFacts(rh, y);
    var c, r := Owner(cw, x), Owner(rh, y);
    IndexInRange(cw[c], rh[r], x - Start(cw, c), y - Start(rh, r));
  }

  /** Cells `(0, y)` .. `(n - 1, y)` of the merged grid. */
  function MergeRow<T>(tiles: seq<seq<T>>, cw: seq<int>, rh: seq<int>, y: int, n: int): (m: seq<T>)
    requires WellTiled(tiles, cw, rh)
    requires 0 <= y < Start(rh, |rh|) && 0 <= n <= Start(cw, |cw|)
    ensures |m| == n
    decreases n
  {
    if n == 0 then [] else MergeRow(tiles, cw, rh, y, n - 1) + [MergeCell(tiles, cw, rh, n - 1, y)]
  }

  /** Rows `0` .. `n - 1` of the merged grid, one after the other. */
  function MergeRows<T>(tiles: seq<seq<T>>, cw: seq<int>, rh: seq<int>, n: int): (m: seq<T>)
    requires WellTiled(tiles, cw, rh)
    requires 0 <= n <= Start(rh, |rh|)
    ensures |m| == RowStart(Start(cw, |cw|), n)
    decreases n
  {
    StartMonotone(cw, 0, |cw|);
    if n == 0 then [] else MergeRows(tiles, cw, rh, n - 1) + MergeRow(tiles, cw, rh, n - 1, Start(cw, |cw|))
  }

  /** The merged grid, row-major: what the merge constructor builds. */
  function MergeSpec<T>(tiles: seq<seq<T>>, cw: seq<int>, rh: seq<int>): (m: seq<T>)
    requires WellTiled(tiles, cw, rh)
    ensures |m| == Start(cw, |cw|) * Start(rh, |rh|)
  {
    StartMonotone(rh, 0, |rh|);
    RowStartIs(Start(cw, |cw|), Start(rh, |rh|));
    MergeRows(tiles, cw, rh, Start(rh, |rh|))
  }

  lemma {:induction false} MergeRowAt<T>(tiles: seq<seq<T>>, cw: seq<int>, rh: seq<int>, y: int, n: int, x: int)
    requires WellTiled(tiles, cw, rh)
    requires 0 <= y < Start(rh, |rh|) && 0 <= x < n <= Start(cw, |cw|)
    ensures MergeRow(tiles, cw, rh, y, n)[x] == MergeCell(tiles, cw, rh, x, y)
    decreases n
  {
    if x < n - 1 {
      MergeRowAt(tiles, cw, rh, y, n - 1, x);
    }
  }

  /** Cell `(x, y)` of the first `n` rows sits at `x` past the start of
      row `y`. */
  lemma {:induction false} MergeRowsAt<T>(tiles: seq<seq<T>>, cw: seq<int>, rh: seq<int>, n: int, x: int, y: int)
    requires WellTiled(tiles, cw, rh)
    requires 0 <= x < Start(cw, |cw|) && 0 <= y < n <= Start(rh, |rh|)
    ensures 0 <= x + RowStart(Start(cw, |cw|), y) < |MergeRows(tiles, cw, rh, n)|
    ensures MergeRows(tiles, cw, rh, n)[x + RowStart(Start(cw, |cw|), y)] == MergeCell(tiles, cw, rh, x, y)
    decreases n
  {
    var w := Start(cw, |cw|);
    StartMonotone(cw, 0, |cw|);
    RowStartMonotone(w, 0, y);
    var init, last := MergeRows(tiles, cw, rh, n - 1), MergeRow(tiles, cw, rh, n - 1, w);
    assert MergeRows(tiles, cw, rh, n) == init + last;
    var k := x + RowStart(w, y);
    if y < n - 1 {
      MergeRowsAt(tiles, cw, rh, n - 1, x, y);
      assert k < |init|;
      assert (init + last)[k] == init[k];
    } else {
      MergeRowAt(tiles, cw, rh, y, w, x);
      assert |init| == RowStart(w, y) && |last| == w;
      assert (init + last)[k] == last[x];
    }
  }

  /** Cell `(x, y)` of the merged grid sits at `x + w*y`. */
  lemma MergeSpecCell<T>(tiles: seq<seq<T>>, cw: seq<int>, rh: seq<int>, x: int, y: int)
    requires WellTiled(tiles, cw, rh)
    requires 0 <= x < Start(cw, |cw|) && 0 <= y < Start(rh, |rh|)
    ensures 0 <= Index(Start(cw, |cw|), x, y) < |MergeSpec(tiles, cw, rh)|
    ensures MergeSpec(tiles, cw, rh)[Index(Start(cw, |cw|), x, y)] == MergeCell(tiles, cw, rh, x, y)
  {
    StartMonotone(rh, 0, |rh|);
    MergeRowsAt(tiles, cw, rh, Start(rh, |rh|), x, y);
    RowStartIs(Start(cw, |cw|), y);
  }

  /** Entry `k` of the merged grid is cell `(k % w, k / w)`. */
  lemma MergeSpecAt<T>(tiles: seq<seq<T>>, cw: seq<int>, rh: seq<int>, k: int)
    requires WellTiled(tiles, cw, rh) && 0 <= k < Start(cw, |cw|) * Start(rh, |rh|)
    ensures var w := Start(cw, |cw|);
            0 <= k % w < w && 0 <= k / w < Start(rh, |rh|) &&
            MergeSpec(tiles, cw, rh)[k] == MergeCell(tiles, cw, rh, k % w, k / w)
  {
    StartMonotone(cw, 0, |cw|);
    StartMonotone(rh, 0, |rh|);
    var w := Start(cw, |cw|);
    IndexOf(w, Start(rh, |rh|), k);
    MergeSpecCell(tiles, cw, rh, k % w, k / w);
  }

  /** Every region of `rs` lies inside a `width` by `height` grid. */
  predicate InsideGrid(rs: seq<Region>, width: int, height: int) {
    forall t :: 0 <= t < |rs| ==>
      0 <= rs[t].x && 0 <= rs[t].w && rs[t].x + rs[t].w <= width &&
      0 <= rs[t].y && 0 <= rs[t].h && rs[t].y + rs[t].h <= height
  }

  /** `tile` holds region `r` of a grid `width` cells wide laid out as a
      grid of its own, `r.w` cells wide: its cell `(i, j)` is the grid's
      cell `(r.x + i, r.y + j)`. */
  ghost predicate CopyOf<T>(tile: seq<T>, cells: seq<T>, width: int, r: Region) {
    |tile| == r.w * r.h &&
    forall i, j :: 0 <= i < r.w && 0 <= j < r.h ==>
      0 <= Index(r.w, i, j) < |tile| && 0 <= At(width, r.x, r.y, i, j) < |cells| &&
      tile[Index(r.w, i, j)] == cells[At(width, r.x, r.y, i, j)]
  }

  /** `tiles[t]` holds region `rs[t]`, for every `t`. */
  ghost predicate CopiesOf<T>(tiles: seq<seq<T>>, cells: seq<T>, width: int, rs: seq<Region>) {
    |tiles| == |rs| && forall t :: 0 <= t < |rs| ==> CopyOf(tiles[t], cells, width, rs[t])
  }

  /** The row-major copy of a region holds it. */
  lemma RowMajorCopyOf<T>(cells: seq<T>, width: int, height: int, r: Region)
    requires |cells| == width * height
    requires 0 <= r.x && 0 <= r.w && r.x + r.w <= width && 0 <= r.y && 0 <= r.h && r.y + r.h <= height
    ensures InRange(RowMajorIndices(width, r.x, r.y, r.w, r.h), |cells|)
    ensures CopyOf(RowMajorCopy(cells, width, r), cells, width, r)
  {
    RowMajorInGrid(width, height, r.x, r.y, r.w, r.h);
    forall i, j | 0 <= i < r.w && 0 <= j < r.h
      ensures 0 <= Index(r.w, i, j) < r.w * r.h && 0 <= At(width, r.x, r.y, i, j) < |cells| &&
              RowMajorCopy(cells, width, r)[Index(r.w, i, j)] == cells[At(width, r.x, r.y, i, j)]
    {
      RowMajorAt(width, r.x, r.y, r.w, r.h, i, j);
      IndexInRange(width, height, r.x + i, r.y + j);
    }
  }

  /** The tiles of a cut lie inside the grid, in either order. */
  lemma TilesInside(width: int, height: int, numX: int, numY: int)
    requires 0 <= width && 0 <= height && 1 <= numX && 1 <= numY
    ensures InsideGrid(RowMajorTiles(width, height, numX, numY, numY), width, height)
    ensures InsideGrid(ColumnMajorTiles(width, height, numX, numY, numX), width, height)
  {
    var rm := RowMajorTiles(width, height, numX, numY, numY);
    var cm := ColumnMajorTiles(width, height, numX, numY, numX);
    forall t | 0 <= t < |rm|
      ensures 0 <= rm[t].x && 0 <= rm[t].w && rm[t].x + rm[t].w <= width &&
              0 <= rm[t].y && 0 <= rm[t].h && rm[t].y + rm[t].h <= height
    {
      IndexOf(numX, numY, t);
      RowMajorTilesAt(width, height, numX, numY, numY, t % numX, t / numX);
      TileInside(width, height, numX, numY, t % numX, t / numX);
    }
    forall t | 0 <= t < |cm|
      ensures 0 <= cm[t].x && 0 <= cm[t].w && cm[t].x + cm[t].w <= width &&
              0 <= cm[t].y && 0 <= cm[t].h && cm[t].y + cm[t].h <= height
    {
      IndexOf(numY, numX, t);
      ColumnMajorTilesAt(width, height, numX, numY, numX, t / numY, t % numY);
      TileInside(width, height, numX, numY, t / numY, t % numY);
    }
  }

  /** `rs` lists the tiles of the widths `cw` and the heights `rh`, tile
      `(c, r)` at position `c + |cw|*r`. */
  predicate TiledBy(rs: seq<Region>, cw: seq<int>, rh: seq<int>) {
    |rs| == |cw| * |rh| &&
    forall c, r :: 0 <= c < |cw| && 0 <= r < |rh| ==>
      0 <= Index(|cw|, c, r) < |rs| &&
      rs[Index(|cw|, c, r)] == Region(Start(cw, c), Start(rh, r), cw[c], rh[r])
  }

  /** The row-major tiles of a cut are the tiles of its extents. */
  lemma RowMajorTiledBy(width: int, height: int, numX: int, numY: int)
    requires 0 <= width && 0 <= height && 1 <= numX && 1 <= numY
    ensures TiledBy(RowMajorTiles(width, height, numX, numY, numY), Extents(width, numX), Extents(height, numY))
  {
    var rs := RowMajorTiles(width, height, numX, numY, numY);
    var cw, rh := Extents(width, numX), Extents(height, numY);
    forall c, r | 0 <= c < numX && 0 <= r < numY
      ensures 0 <= Index(numX, c, r) < |rs| && rs[Index(numX, c, r)] == Region(Start(cw, c), Start(rh, r), cw[c], rh[r])
    {
      RowMajorTilesAt(width, height, numX, numY, numY, c, r);
      ExtentsStart(width, numX, c);
      ExtentsStart(height, numY, r);
    }
  }

  /** The copies of a tiling form a well-formed tiling. */
  lemma CopiesWellTiled<T>(tiles: seq<seq<T>>, cells: seq<T>, width: int, rs: seq<Region>, cw: seq<int>, rh: seq<int>)
    requires CopiesOf(tiles, cells, width, rs)
    requires TiledBy(rs, cw, rh) && |cw| >= 1 && |rh| >= 1 && Positive(cw) && Positive(rh)
    ensures WellTiled(tiles, cw, rh)
  {
    forall c, r | 0 <= c < |cw| && 0 <= r < |rh|
      ensures 0 <= Index(|cw|, c, r) < |tiles| && |tiles[Index(|cw|, c, r)]| == cw[c] * rh[r]
    {
      assert CopyOf(tiles[Index(|cw|, c, r)], cells, width, rs[Index(|cw|, c, r)]);
    }
  }

  /** Merging the copies of a tiling of the whole grid reads each cell back
      from the tile that holds it. */
  lemma MergeCopiesCell<T>(tiles: seq<seq<T>>, cells: seq<T>, width: int, height: int, rs: seq<Region>, cw: seq<int>, rh: seq<int>, x: int, y: int)
    requires CopiesOf(tiles, cells, width, rs) && |cells| == width * height
    requires TiledBy(rs, cw, rh) && WellTiled(tiles, cw, rh)
    requires Start(cw, |cw|) == width && Start(rh, |rh|) == height
    requires 0 <= x < width && 0 <= y < height
    ensures 0 <= Index(width, x, y) < |cells|
    ensures MergeCell(tiles, cw, rh, x, y) == cells[Index(width, x, y)]
  {
    IndexInRange(width, height, x, y);
    OwnerFacts(cw, x);
    OwnerFacts(rh, y);
    var c, r := Owner(cw, x), Owner(rh, y);
    var t := Index(|cw|, c, r);
    var reg := Region(Start(cw, c), Start(rh, r), cw[c], rh[r]);
    assert 0 <= t < |rs| && rs[t] == reg;
    MergeCellAt(tiles, cw, rh, x, y);
    assert CopyOf(tiles[t], cells, width, reg);
    assert tiles[t][Index(reg.w, x - reg.x, y - reg.y)] == cells[At(width, reg.x, reg.y, x - reg.x, y - reg.y)];
  }

  /** Merging the copies of a tiling of the whole grid gives back the grid. */
  lemma MergeCopies<T>(tiles: seq<seq<T>>, cells: seq<T>, width: int, height: int, rs: seq<Region>, cw: seq<int>, rh: seq<int>)
    requires CopiesOf(tiles, cells, width, rs) && |cells| == width * height
    requires TiledBy(rs, cw, rh) && WellTiled(tiles, cw, rh)
    requires Start(cw, |cw|) == width && Start(rh, |rh|) == height
    ensures MergeSpec(tiles, cw, rh) == cells
  {
    var m := MergeSpec(tiles, cw, rh);
    forall k | 0 <= k < |cells| ensures m[k] == cells[k] {
      MergeSpecAt(tiles, cw, rh, k);
      IndexOf(width, height, k);
      MergeCopiesCell(tiles, cells, width, height, rs, cw, rh, k % width, k / width);
    }
  }

  /** The round trip: tiles holding the row-major cut of a grid with `1 <=
      numX <= width` and `1 <= numY <= height` form a well-formed tiling by
      the cut's extents, and merging them gives back the grid. */
  lemma DivideMerge<T>(tiles: seq<seq<T>>, cells: seq<T>, width: int, height: int, numX: int, numY: int)
    requires 1 <= numX <= width && 1 <= numY <= height && |cells| == width * height
    requires CopiesOf(tiles, cells, width, RowMajorTiles(width, height, numX, numY, numY))
    ensures WellTiled(tiles, Extents(width, numX), Extents(height, numY))
    ensures MergeSpec(tiles, Extents(width, numX), Extents(height, numY)) == cells
  {
    var rs := RowMajorTiles(width, height, numX, numY, numY);
    var cw, rh := Extents(width, numX), Extents(height, numY);
    RowMajorTiledBy(width, height, numX, numY);
    ExtentsNonNegative(width, numX);
    ExtentsNonNegative(height, numY);
    ExtentsStart(width, numX, numX);
    ExtentsStart(height, numY, numY);
    CopiesWellTiled(tiles, cells, width, rs, cw, rh);
    MergeCopies(tiles, cells, width, height, rs, cw, rh);
  }
}
