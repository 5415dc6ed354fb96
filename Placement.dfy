/** What the three model builders generate, as pure definitions: the
    rectangle catalog, the validity filter, the anchors of a shape and the
    anchors that cover a cell, and the exact constraint lists the builders'
    loops emit. The lemmas at the end say what any assignment satisfying
    such a list means for the selected rectangles. */
module Placement {
  import opened LinearModel
  import opened Linearization
  import opened Indexing

  /** The classification of a cell (regular, ham and do-not-exists in the
      programs' own terms). */
  datatype Kind = Absent | Plain | Special

  /** The input of one model construction: the grid's kinds in row-major
      order, its dimensions, and the two parameters `minNumCross` (special
      cells a rectangle needs) and `maxRectSize` (largest area). */
  datatype Instance = Instance(kinds: seq<Kind>, width: int, height: int, minNumCross: int, maxRectSize: int)

  predicate WellFormed(inst: Instance) {
    inst.width >= 0 && inst.height >= 0 && |inst.kinds| == inst.width * inst.height
  }

  datatype Shape = Shape(width: int, height: int)

  // ---------------------------------------------------------------------
  // The rectangle catalog.

  /** `(i, j)` for `j` from 1 to `n` with `i*j <= m`. */
  function CatalogRow(m: int, i: int, n: int): seq<Shape>
    decreases n
  {
    if n < 1 then [] else CatalogRow(m, i, n - 1) + (if i * n <= m then [Shape(i, n)] else [])
  }

  /** The rows of the catalog for `i` from 1 to `n`. */
  function CatalogUpTo(m: int, n: int): seq<Shape>
    decreases n
  {
    if n < 1 then [] else CatalogUpTo(m, n - 1) + CatalogRow(m, n, m)
  }

  /** The catalog for a maximal area `m`, in the order of the loops
      `for i in 1..m { for j in 1..m { if i*j <= m ... } }`. */
  function Catalog(m: int): seq<Shape> {
    CatalogUpTo(m, m)
  }

  /** `p` comes strictly before `q`, widths first. */
  predicate Before(p: Shape, q: Shape) {
    p.width < q.width || (p.width == q.width && p.height < q.height)
  }

  predicate Ordered(s: seq<Shape>) {
    forall p, q :: 0 <= p < q < |s| ==> Before(s[p], s[q])
  }

  lemma OrderedAppend(s: seq<Shape>, t: seq<Shape>)
    requires Ordered(s) && Ordered(t)
    requires forall p, q :: p in s && q in t ==> Before(p, q)
    ensures Ordered(s + t)
  {
    forall p, q | 0 <= p < q < |s + t| ensures Before((s + t)[p], (s + t)[q]) {
      if q < |s| {
        assert (s + t)[p] == s[p] && (s + t)[q] == s[q];
      } else if p >= |s| {
        assert (s + t)[p] == t[p - |s|] && (s + t)[q] == t[q - |s|];
      } else {
        assert (s + t)[p] in s && (s + t)[q] in t;
      }
    }
  }

  lemma {:induction false} CatalogRowFacts(m: int, i: int, n: int)
    ensures Ordered(CatalogRow(m, i, n))
    ensures forall sh :: sh in CatalogRow(m, i, n) <==>
              sh.width == i && 1 <= sh.height <= n && i * sh.height <= m
    decreases n
  {
    if n >= 1 {
      CatalogRowFacts(m, i, n - 1);
      var tail := if i * n <= m then [Shape(i, n)] else [];
      OrderedAppend(CatalogRow(m, i, n - 1), tail);
    }
  }

  lemma {:induction false} CatalogUpToFacts(m: int, n: int)
    ensures Ordered(CatalogUpTo(m, n))
    ensures forall sh :: sh in CatalogUpTo(m, n) <==>
              1 <= sh.width <= n && 1 <= sh.height <= m && sh.width * sh.height <= m
    decreases n
  {
    if n >= 1 {
      CatalogUpToFacts(m, n - 1);
      CatalogRowFacts(m, n, m);
      OrderedAppend(CatalogUpTo(m, n - 1), CatalogRow(m, n, m));
    }
  }

  /** The catalog holds exactly the shapes `(w, h)` with `1 <= w, h <= m`
      and `w*h <= m`, and lists them width-major, each once. */
  lemma CatalogFacts(m: int)
    ensures forall w, h :: Shape(w, h) in Catalog(m) <==> 1 <= w <= m && 1 <= h <= m && w * h <= m
    ensures Ordered(Catalog(m))
    ensures forall p, q :: 0 <= p < q < |Catalog(m)| ==> Catalog(m)[p] != Catalog(m)[q]
  {
    CatalogUpToFacts(m, m);
    forall w, h ensures Shape(w, h) in Catalog(m) <==> 1 <= w <= m && 1 <= h <= m && w * h <= m {
      var sh := Shape(w, h);
      assert sh.width == w && sh.height == h;
    }
  }

  predicate PositiveShapes(shapes: seq<Shape>) {
    forall k :: 0 <= k < |shapes| ==> shapes[k].width >= 1 && shapes[k].height >= 1
  }

  lemma CatalogPositive(m: int)
    ensures PositiveShapes(Catalog(m))
  {
    CatalogUpToFacts(m, m);
    forall k | 0 <= k < |Catalog(m)| ensures Catalog(m)[k].width >= 1 && Catalog(m)[k].height >= 1 {
      assert Catalog(m)[k] in Catalog(m);
    }
  }

  // ---------------------------------------------------------------------
  // Rectangles inside the grid and the validity filter.

  /** The `w` by `h` rectangle at `(x, y)` lies inside the grid. */
  predicate Inside(inst: Instance, x: int, y: int, w: int, h: int) {
    0 <= x && 0 <= w && x + w <= inst.width && 0 <= y && 0 <= h && y + h <= inst.height
  }

  /** The kind of cell `(x + i, y + j)`. */
  function KindAt(inst: Instance, x: int, y: int, i: int, j: int): Kind
    requires WellFormed(inst) && 0 <= x + i < inst.width && 0 <= y + j < inst.height
  {
    IndexInRange(inst.width, inst.height, x + i, y + j);
    inst.kinds[At(inst.width, x, y, i, j)]
  }

  /** The kinds of column `x + i` of the rectangle, rows `y .. y + h - 1`. */
  function ColumnKinds(inst: Instance, x: int, y: int, i: int, h: int): (r: seq<Kind>)
    requires WellFormed(inst) && 0 <= x + i < inst.width && 0 <= y && 0 <= h && y + h <= inst.height
    ensures |r| == h
  {
    seq(h, j requires 0 <= j < h => KindAt(inst, x, y, i, j))
  }

  /** The kinds of the rectangle's cells, in footprint order (column by
      column). */
  function FootprintKinds(inst: Instance, x: int, y: int, w: int, h: int): (r: seq<Kind>)
    requires WellFormed(inst) && Inside(inst, x, y, w, h)
    ensures |r| == RowStart(h, w)
    decreases w
  {
    if w == 0 then [] else FootprintKinds(inst, x, y, w - 1, h) + ColumnKinds(inst, x, y, w - 1, h)
  }

  /** Entry `i*h + j` of the footprint's kinds is the kind of cell
      `(x + i, y + j)`. */
  lemma {:induction false} FootprintKindsAt(inst: Instance, x: int, y: int, w: int, h: int, i: int, j: int)
    requires WellFormed(inst) && Inside(inst, x, y, w, h) && 0 <= i < w && 0 <= j < h
    ensures 0 <= i * h + j < |FootprintKinds(inst, x, y, w, h)|
    ensures FootprintKinds(inst, x, y, w, h)[i * h + j] == KindAt(inst, x, y, i, j)
    decreases w
  {
    var prefix := FootprintKinds(inst, x, y, w - 1, h);
    RowStartIs(h, w - 1);
    if i < w - 1 {
      FootprintKindsAt(inst, x, y, w - 1, h, i, j);
    } else {
      assert i * h + j == |prefix| + j;
    }
  }

  lemma {:induction false} FootprintKindsMembers(inst: Instance, x: int, y: int, w: int, h: int, t: Kind)
    requires WellFormed(inst) && Inside(inst, x, y, w, h)
    ensures t in FootprintKinds(inst, x, y, w, h) <==>
            exists i, j :: 0 <= i < w && 0 <= j < h && KindAt(inst, x, y, i, j) == t
    decreases w
  {
    if w > 0 {
      FootprintKindsMembers(inst, x, y, w - 1, h, t);
      var col := ColumnKinds(inst, x, y, w - 1, h);
      if t in col {
        var j :| 0 <= j < h && col[j] == t;
        assert 0 <= w - 1 < w && KindAt(inst, x, y, w - 1, j) == t;
      }
      if exists i, j :: 0 <= i < w && 0 <= j < h && KindAt(inst, x, y, i, j) == t {
        var i, j :| 0 <= i < w && 0 <= j < h && KindAt(inst, x, y, i, j) == t;
        if i == w - 1 { assert col[j] == t; }
      }
    }
  }

  /** The number of special cells in column `x + i` of the rectangle, rows
      `y .. y + n - 1`. */
  function ColumnSpecials(inst: Instance, x: int, y: int, i: int, n: int): (r: nat)
    requires WellFormed(inst) && 0 <= x + i < inst.width && 0 <= y && 0 <= n && y + n <= inst.height
    ensures r <= n
    decreases n
  {
    if n == 0 then 0 else ColumnSpecials(inst, x, y, i, n - 1) + (if KindAt(inst, x, y, i, n - 1) == Special then 1 else 0)
  }

  /** The number of special cells in the rectangle, counted column by
      column. */
  function SpecialCount(inst: Instance, x: int, y: int, w: int, h: int): nat
    requires WellFormed(inst) && Inside(inst, x, y, w, h)
    decreases w
  {
    if w == 0 then 0 else SpecialCount(inst, x, y, w - 1, h) + ColumnSpecials(inst, x, y, w - 1, h)
  }

  /** A column's special cells are the occurrences of `Special` among its
      kinds. */
  lemma {:induction false} ColumnSpecialsCount(inst: Instance, x: int, y: int, i: int, n: int)
    requires WellFormed(inst) && 0 <= x + i < inst.width && 0 <= y && 0 <= n && y + n <= inst.height
    ensures ColumnSpecials(inst, x, y, i, n) == Count(ColumnKinds(inst, x, y, i, n), Special)
    decreases n
  {
    if n > 0 {
      ColumnSpecialsCount(inst, x, y, i, n - 1);
      assert ColumnKinds(inst, x, y, i, n)[..n - 1] == ColumnKinds(inst, x, y, i, n - 1);
    }
  }

  /** The rectangle's special cells are the occurrences of `Special` among
      its footprint's kinds, so there are at most `w * h` of them. */
  lemma {:induction false} SpecialCountIsCount(inst: Instance, x: int, y: int, w: int, h: int)
    requires WellFormed(inst) && Inside(inst, x, y, w, h)
    ensures SpecialCount(inst, x, y, w, h) == Count(FootprintKinds(inst, x, y, w, h), Special)
    ensures SpecialCount(inst, x, y, w, h) <= w * h
    decreases w
  {
    if w > 0 {
      SpecialCountIsCount(inst, x, y, w - 1, h);
      ColumnSpecialsCount(inst, x, y, w - 1, h);
      CountAppend(FootprintKinds(inst, x, y, w - 1, h), ColumnKinds(inst, x, y, w - 1, h), Special);
    }
    RowStartIs(h, w);
  }

  /** The validity filter: no absent cell, and at least `minNumCross`
      special cells. */
  predicate ValidPlacement(inst: Instance, x: int, y: int, w: int, h: int)
    requires WellFormed(inst) && Inside(inst, x, y, w, h)
  {
    Absent !in FootprintKinds(inst, x, y, w, h) && SpecialCount(inst, x, y, w, h) >= inst.minNumCross
  }

  // ---------------------------------------------------------------------
  // Anchors.

  /** `(ax, ay)` is an anchor of a `w` by `h` shape: the rectangle there
      fits, `0 <= ax <= width - w` and `0 <= ay <= height - h`. */
  predicate IsAnchor(inst: Instance, w: int, h: int, ax: int, ay: int) {
    0 <= ax <= inst.width - w && 0 <= ay <= inst.height - h
  }

  /** The position of anchor `(ax, ay)` in the shape's array of placement
      variables, which is `width - w + 1` anchors wide. */
  function AnchorIndex(inst: Instance, w: int, ax: int, ay: int): int {
    Index(inst.width - w + 1, ax, ay)
  }

  /** The selection variable of shape `s` at anchor `(ax, ay)`. */
  function PlacementVar(s: int, ax: int, ay: int): Var {
    Rect(s, ax, ay)
  }

  /** The anchors of a shape have distinct positions, all below
      `matrixSize = (width - w + 1) * (height - h + 1)`. */
  lemma AnchorIndexFacts(inst: Instance, w: int, h: int, ax: int, ay: int, qx: int, qy: int)
    requires IsAnchor(inst, w, h, ax, ay) && IsAnchor(inst, w, h, qx, qy)
    ensures 0 <= AnchorIndex(inst, w, ax, ay) < (inst.width - w + 1) * (inst.height - h + 1)
    ensures AnchorIndex(inst, w, ax, ay) == AnchorIndex(inst, w, qx, qy) ==> ax == qx && ay == qy
  {
    IndexInRange(inst.width - w + 1, inst.height - h + 1, ax, ay);
    if AnchorIndex(inst, w, ax, ay) == AnchorIndex(inst, w, qx, qy) {
      IndexInjective(inst.width - w + 1, ax, ay, qx, qy);
    }
  }

  /** ... and every position below `matrixSize` is the position of the
      anchor `(k % matrixW, k / matrixW)` it is named after. So naming a
      placement variable by its anchor is naming it by its position. */
  lemma AnchorOfIndex(inst: Instance, w: int, h: int, k: int)
    requires w <= inst.width && h <= inst.height
    requires 0 <= k < (inst.width - w + 1) * (inst.height - h + 1)
    ensures IsAnchor(inst, w, h, k % (inst.width - w + 1), k / (inst.width - w + 1))
    ensures AnchorIndex(inst, w, k % (inst.width - w + 1), k / (inst.width - w + 1)) == k
  {
    IndexOf(inst.width - w + 1, inst.height - h + 1, k);
  }

  /** The cell variables of a list of cell indices. */
  function CellVars(idx: seq<int>): (r: seq<Var>)
    ensures |r| == |idx|
  {
    seq(|idx|, k requires 0 <= k < |idx| => Cell(idx[k]))
  }

  /** The AND of the cells of the rectangle at `(x, y)`, reduced from
      `Aux(next)` on. */
  function ProductOf(inst: Instance, x: int, y: int, w: int, h: int, next: nat): Product
    requires 1 <= w && 1 <= h
  {
    Reduce(CellVars(FootprintIndices(inst.width, x, y, w, h)), next)
  }

  /** Which of the two anchor forms a program emits: `MISRSolver.cpp` and
      `HashCodePizza.cpp` filter (`rect == 0` for an invalid anchor, else
      `rect <= product`); `FittingRectangles.cpp` does not (`rect <=
      product` and `rect <= 1` or `rect <= 0` by the special-cell count). */
  datatype Style = Filtered | Unfiltered

  /** What the filter of `style` lets through: a valid rectangle for the
      first two programs, one with enough special cells for the third. */
  predicate Admissible(inst: Instance, style: Style, x: int, y: int, w: int, h: int)
    requires WellFormed(inst) && Inside(inst, x, y, w, h)
  {
    match style
    case Filtered => ValidPlacement(inst, x, y, w, h)
    case Unfiltered => SpecialCount(inst, x, y, w, h) >= inst.minNumCross
  }

  /** The filter's verdict on every anchor of a `w` by `h` shape. */
  function AdmissibleAt(inst: Instance, style: Style, w: int, h: int): (int, int) -> bool
    requires WellFormed(inst) && 0 <= w && 0 <= h
  {
    (ax: int, ay: int) => IsAnchor(inst, w, h, ax, ay) && Admissible(inst, style, ax, ay, w, h)
  }

  /** Constraints emitted, and the next free auxiliary index. */
  datatype Emitted = Emitted(constraints: seq<Constraint>, next: nat)

  /** What one anchor of shape `s` contributes, given the filter's verdict
      `admissible` on it. */
  function AnchorConstraints(inst: Instance, style: Style, s: int, w: int, h: int, ax: int, ay: int,
                             admissible: bool, next: nat): Emitted
    requires 1 <= w && 1 <= h
  {
    var r := PlacementVar(s, ax, ay);
    match style
    case Filtered =>
      if !admissible then Emitted([IsZero(r)], next)
      else
        var p := ProductOf(inst, ax, ay, w, h, next);
        Emitted(p.constraints + [AtMost(r, p.result)], p.next)
    case Unfiltered =>
      var p := ProductOf(inst, ax, ay, w, h, next);
      Emitted(p.constraints + [AtMost(r, p.result), AtMostConst(r, if admissible then 1 else 0)], p.next)
  }

  /** The body of one of `AddRectangle`'s and `InitRectVariables`' loops:
      the inner anchor loop of shape `s`, column `ax`, the filter's verdicts
      given by `ok`; the outer anchor loop, one column per iteration; or the
      catalog loop, one shape per iteration. */
  datatype Body =
    | ColumnBody(inst: Instance, style: Style, s: int, w: int, h: int, ok: (int, int) -> bool, ax: int)
    | ShapeBody(inst: Instance, style: Style, s: int, w: int, h: int, ok: (int, int) -> bool)
    | CatalogBody(inst: Instance, style: Style, shapes: seq<Shape>)

  /** How deeply the loop runs nested loops. */
  function Depth(b: Body): nat {
    match b
    case ColumnBody(_, _, _, _, _, _, _) => 0
    case ShapeBody(_, _, _, _, _, _) => 1
    case CatalogBody(_, _, _) => 2
  }

  /** The body can run: positive shape sizes, and a well-formed grid for
      the catalog loop, which computes the filter's verdicts. */
  predicate Runnable(b: Body) {
    match b
    case ColumnBody(_, _, _, w, h, _, _) => 1 <= w && 1 <= h
    case ShapeBody(_, _, _, w, h, _) => 1 <= w && 1 <= h
    case CatalogBody(inst, _, shapes) => WellFormed(inst) && PositiveShapes(shapes)
  }

  /** What the loop `for k < n { b(k) }` emits, the fresh-variable counter
      handed from one iteration to the next. */
  function Sweep(b: Body, n: int, next: nat): Emitted
    requires Runnable(b)
    decreases Depth(b), 1, n
  {
    if n <= 0 then Emitted([], next)
    else
      var e := Sweep(b, n - 1, next);
      var c := Step(b, n - 1, e.next);
      Emitted(e.constraints + c.constraints, c.next)
  }

  /** What iteration `k` of the loop emits from counter value `next`. */
  function Step(b: Body, k: int, next: nat): Emitted
    requires Runnable(b)
    decreases Depth(b), 0, 0
  {
    match b
    case ColumnBody(inst, style, s, w, h, ok, ax) => AnchorConstraints(inst, style, s, w, h, ax, k, ok(ax, k), next)
    case ShapeBody(inst, style, s, w, h, ok) =>
      Sweep(ColumnBody(inst, style, s, w, h, ok, k), inst.height - h + 1, next)
    case CatalogBody(inst, style, shapes) =>
      if 0 <= k < |shapes| then
        var w, h := shapes[k].width, shapes[k].height;
        Sweep(ShapeBody(inst, style, k, w, h, AdmissibleAt(inst, style, w, h)), inst.width - w + 1, next)
      else Emitted([], next)
  }

  /** The anchors of shape `s` column by column, `for i < width - w + 1
      { for j < height - h + 1 }`, for any table of verdicts `ok`. */
  function Anchors(inst: Instance, style: Style, s: int, w: int, h: int, ok: (int, int) -> bool, next: nat): Emitted
    requires 1 <= w && 1 <= h
  {
    Sweep(ShapeBody(inst, style, s, w, h, ok), inst.width - w + 1, next)
  }

  /** What `AddRectangle` emits for shape `s`. */
  function ShapeConstraints(inst: Instance, style: Style, s: int, w: int, h: int, next: nat): Emitted
    requires WellFormed(inst) && 1 <= w && 1 <= h
  {
    Anchors(inst, style, s, w, h, AdmissibleAt(inst, style, w, h), next)
  }

  /** What the catalog loop emits for `shapes`. */
  function ShapesConstraints(inst: Instance, style: Style, shapes: seq<Shape>, next: nat): Emitted
    requires WellFormed(inst) && PositiveShapes(shapes)
  {
    Sweep(CatalogBody(inst, style, shapes), |shapes|, next)
  }

  // ---------------------------------------------------------------------
  // The anchors whose rectangle covers a cell.

  /** The source's test for offset `(i, j)`: anchor `(x - i, y - j)` is in
      range. */
  predicate Covers(inst: Instance, w: int, h: int, x: int, y: int, i: int, j: int) {
    0 <= x - i < inst.width - w + 1 && 0 <= y - j < inst.height - h + 1
  }

  /** Offsets `(i, 0)` .. `(i, n - 1)` that pass the test, as anchors. */
  function CoverColumn(inst: Instance, w: int, h: int, x: int, y: int, i: int, n: int): seq<(int, int)>
    decreases n
  {
    if n <= 0 then []
    else
      CoverColumn(inst, w, h, x, y, i, n - 1) +
      (if Covers(inst, w, h, x, y, i, n - 1) then [(x - i, y - (n - 1))] else [])
  }

  function CoverColumns(inst: Instance, w: int, h: int, x: int, y: int, n: int): seq<(int, int)>
    decreases n
  {
    if n <= 0 then [] else CoverColumns(inst, w, h, x, y, n - 1) + CoverColumn(inst, w, h, x, y, n - 1, h)
  }

  /** The anchors of shape `(w, h)` summed for cell `(x, y)`, in the order
      of the loops `for i < w { for j < h }`. */
  function Covering(inst: Instance, w: int, h: int, x: int, y: int): seq<(int, int)> {
    CoverColumns(inst, w, h, x, y, w)
  }

  /** The rectangle at `(ax, ay)` of size `w` by `h` contains `(x, y)`. */
  predicate Contains(ax: int, ay: int, w: int, h: int, x: int, y: int) {
    ax <= x < ax + w && ay <= y < ay + h
  }

  /** The selection variables of shape `s` at the given anchors. */
  function ShapeVars(s: int, anchors: seq<(int, int)>): (r: seq<Var>)
    ensures |r| == |anchors|
  {
    seq(|anchors|, k requires 0 <= k < |anchors| => PlacementVar(s, anchors[k].0, anchors[k].1))
  }

  /** `overlapExpr` of cell `(x, y)`: the covering anchors of `shapes[0..n)`. */
  function OverlapExpr(inst: Instance, shapes: seq<Shape>, x: int, y: int, n: int): seq<Var>
    requires n <= |shapes|
    decreases n
  {
    if n <= 0 then []
    else
      OverlapExpr(inst, shapes, x, y, n - 1) +
      ShapeVars(n - 1, Covering(inst, shapes[n - 1].width, shapes[n - 1].height, x, y))
  }

  /** `cell >= rect` for every `rect` of `vars`. */
  function Inclusions(cell: Var, vars: seq<Var>): (r: seq<Constraint>)
    ensures |r| == |vars|
  {
    seq(|vars|, k requires 0 <= k < |vars| => AtLeast(cell, vars[k]))
  }

  /** The inclusion constraints for cell `(x, y)` and `shapes[0..n)`. */
  function CellInclusions(inst: Instance, shapes: seq<Shape>, x: int, y: int, n: int): seq<Constraint>
    requires n <= |shapes|
    decreases n
  {
    if n <= 0 then []
    else
      CellInclusions(inst, shapes, x, y, n - 1) +
      Inclusions(Cell(Index(inst.width, x, y)),
                 ShapeVars(n - 1, Covering(inst, shapes[n - 1].width, shapes[n - 1].height, x, y)))
  }

  /** How a per-cell loop is arranged: `Combined` (inclusions, `sum <= 1`,
      `cell <= sum` in one loop, as in `InitOverlapConstraints`),
      `OverlapOnly` and `InclusionOnly` (the two loops of the third
      program's `Solve`). */
  datatype CellPart = Combined | OverlapOnly | InclusionOnly

  function CellConstraints(inst: Instance, shapes: seq<Shape>, part: CellPart, x: int, y: int): seq<Constraint> {
    var e := OverlapExpr(inst, shapes, x, y, |shapes|);
    var cell := Cell(Index(inst.width, x, y));
    match part
    case Combined => CellInclusions(inst, shapes, x, y, |shapes|) + [SumAtMostOne(e), AtMostSum(cell, e)]
    case OverlapOnly => [SumAtMostOne(e)]
    case InclusionOnly => CellInclusions(inst, shapes, x, y, |shapes|) + [AtMostSum(cell, e)]
  }

  /** Cells `(x, 0)` .. `(x, n - 1)`. */
  function CellColumn(inst: Instance, shapes: seq<Shape>, part: CellPart, x: int, n: int): seq<Constraint>
    decreases n
  {
    if n <= 0 then [] else CellColumn(inst, shapes, part, x, n - 1) + CellConstraints(inst, shapes, part, x, n - 1)
  }

  /** All cells with `x < n`, column by column (`for i < width { for j < height }`). */
  function CellColumns(inst: Instance, shapes: seq<Shape>, part: CellPart, n: int): seq<Constraint>
    decreases n
  {
    if n <= 0 then [] else CellColumns(inst, shapes, part, n - 1) + CellColumn(inst, shapes, part, n - 1, inst.height)
  }

  function CellSweep(inst: Instance, shapes: seq<Shape>, part: CellPart): seq<Constraint> {
    CellColumns(inst, shapes, part, inst.width)
  }

  /** `blocksVars[k] == 0` for every absent cell among the first `n`. */
  function ZeroAbsent(kinds: seq<Kind>, n: int): seq<Constraint>
    requires n <= |kinds|
    decreases n
  {
    if n <= 0 then [] else ZeroAbsent(kinds, n - 1) + (if kinds[n - 1] == Absent then [IsZero(Cell(n - 1))] else [])
  }

  /** The objective's terms: the variables of the cells `0 .. n - 1`. */
  function CellRange(n: int): (r: seq<Var>)
    ensures |r| == if n <= 0 then 0 else n
    ensures forall k :: 0 <= k < |r| ==> r[k] == Cell(k)
    decreases n
  {
    if n <= 0 then [] else CellRange(n - 1) + [Cell(n - 1)]
  }

  /** The whole model of `MISRSolver.cpp` and `HashCodePizza.cpp`. */
  function FilteredModel(inst: Instance): seq<Constraint>
    requires WellFormed(inst)
  {
    CatalogPositive(inst.maxRectSize);
    var shapes := Catalog(inst.maxRectSize);
    ZeroAbsent(inst.kinds, |inst.kinds|)
    + ShapesConstraints(inst, Filtered, shapes, 0).constraints
    + CellSweep(inst, shapes, Combined)
  }

  /** The whole model of `FittingRectangles.cpp`. */
  function UnfilteredModel(inst: Instance): seq<Constraint>
    requires WellFormed(inst)
  {
    CatalogPositive(inst.maxRectSize);
    var shapes := Catalog(inst.maxRectSize);
    ShapesConstraints(inst, Unfiltered, shapes, 0).constraints
    + CellSweep(inst, shapes, OverlapOnly)
    + CellSweep(inst, shapes, InclusionOnly)
  }
}
