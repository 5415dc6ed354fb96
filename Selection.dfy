/** What an assignment that satisfies a generated model says about the
    rectangles it selects: a selected rectangle passes the filter and all
    its cells are selected, two selected rectangles never share a cell, a
    selected cell lies in some selected rectangle, and an absent cell is
    never selected. Together these make the objective (the number of
    selected cells) the area covered by non-overlapping valid rectangles. */
module Selection {
  import opened LinearModel
  import opened Linearization
  import opened Indexing
  import opened Placement

  // ---------------------------------------------------------------------
  // Locating one anchor's or one cell's constraints inside a model.

  /** Every constraint of `sub` occurs in `full`. */
  predicate Included(sub: seq<Constraint>, full: seq<Constraint>) {
    forall c :: c in sub ==> c in full
  }

  lemma SatisfiesIncluded(sub: seq<Constraint>, full: seq<Constraint>, a: Assignment)
    requires Included(sub, full) && Satisfies(full, a)
    ensures Satisfies(sub, a)
  {
    forall i | 0 <= i < |sub| ensures Holds(sub[i], a) {
      assert sub[i] in full;
      var j :| 0 <= j < |full| && full[j] == sub[i];
    }
  }

  lemma IncludedAppend(sub: seq<Constraint>, s: seq<Constraint>, t: seq<Constraint>)
    requires Included(sub, s) || Included(sub, t)
    ensures Included(sub, s + t)
  {
  }

  lemma IncludedTrans(a: seq<Constraint>, b: seq<Constraint>, c: seq<Constraint>)
    requires Included(a, b) && Included(b, c)
    ensures Included(a, c)
  {
  }

  /** Every iteration's constraints occur in what the loop emits, for the
      counter value that iteration starts from. */
  lemma {:induction false} SweepIncludes(b: Body, n: int, next: nat, k: int) returns (m: nat)
    requires Runnable(b) && 0 <= k < n
    ensures Included(Step(b, k, m).constraints, Sweep(b, n, next).constraints)
    decreases n
  {
    var e := Sweep(b, n - 1, next);
    var c := Step(b, n - 1, e.next);
    if k == n - 1 {
      m := e.next;
      IncludedAppend(c.constraints, e.constraints, c.constraints);
    } else {
      m := SweepIncludes(b, n - 1, next, k);
      IncludedAppend(Step(b, k, m).constraints, e.constraints, c.constraints);
    }
  }

  lemma {:induction false} CellInColumn(inst: Instance, shapes: seq<Shape>, part: CellPart, x: int, n: int, y: int)
    requires 0 <= y < n
    ensures Included(CellConstraints(inst, shapes, part, x, y), CellColumn(inst, shapes, part, x, n))
    decreases n
  {
    if y < n - 1 {
      CellInColumn(inst, shapes, part, x, n - 1, y);
    }
  }

  lemma {:induction false} CellInColumns(inst: Instance, shapes: seq<Shape>, part: CellPart, n: int, x: int, y: int)
    requires 0 <= x < n && 0 <= y < inst.height
    ensures Included(CellConstraints(inst, shapes, part, x, y), CellColumns(inst, shapes, part, n))
    decreases n
  {
    if x < n - 1 {
      CellInColumns(inst, shapes, part, n - 1, x, y);
    } else {
      CellInColumn(inst, shapes, part, x, inst.height, y);
    }
  }

  // ---------------------------------------------------------------------
  // The covering anchors of a cell.

  lemma {:induction false} CoverColumnMembers(inst: Instance, w: int, h: int, x: int, y: int, i: int, n: int, p: (int, int))
    ensures p in CoverColumn(inst, w, h, x, y, i, n) <==>
            p.0 == x - i && 0 <= y - p.1 < n && Covers(inst, w, h, x, y, i, y - p.1)
    decreases n
  {
    if n > 0 {
      CoverColumnMembers(inst, w, h, x, y, i, n - 1, p);
    }
  }

  lemma {:induction false} CoverColumnsMembers(inst: Instance, w: int, h: int, x: int, y: int, n: int, p: (int, int))
    ensures p in CoverColumns(inst, w, h, x, y, n) <==>
            0 <= x - p.0 < n && 0 <= y - p.1 < h && Covers(inst, w, h, x, y, x - p.0, y - p.1)
    decreases n
  {
    if n > 0 {
      CoverColumnsMembers(inst, w, h, x, y, n - 1, p);
      CoverColumnMembers(inst, w, h, x, y, n - 1, h, p);
    }
  }

  /** The anchors summed for cell `(x, y)` are exactly the anchors of the
      shape whose rectangle contains the cell. */
  lemma CoveringMembers(inst: Instance, w: int, h: int, x: int, y: int, p: (int, int))
    ensures p in Covering(inst, w, h, x, y) <==>
            IsAnchor(inst, w, h, p.0, p.1) && Contains(p.0, p.1, w, h, x, y)
  {
    CoverColumnsMembers(inst, w, h, x, y, w, p);
  }

  lemma {:induction false} CoverColumnDistinct(inst: Instance, w: int, h: int, x: int, y: int, i: int, n: int)
    ensures Distinct(CoverColumn(inst, w, h, x, y, i, n))
    decreases n
  {
    if n > 0 {
      var prefix := CoverColumn(inst, w, h, x, y, i, n - 1);
      var tail := if Covers(inst, w, h, x, y, i, n - 1) then [(x - i, y - (n - 1))] else [];
      CoverColumnDistinct(inst, w, h, x, y, i, n - 1);
      forall u | u in prefix ensures u !in tail {
        CoverColumnMembers(inst, w, h, x, y, i, n - 1, u);
      }
      DistinctAppend(prefix, tail);
    }
  }

  /** The anchors found in column `x - i` of the walk have that column. */
  lemma {:induction false} CoverColumnColumn(inst: Instance, w: int, h: int, x: int, y: int, i: int, n: int, p: (int, int))
    ensures p in CoverColumn(inst, w, h, x, y, i, n) ==> p.0 == x - i
    decreases n
  {
    if n > 0 {
      CoverColumnColumn(inst, w, h, x, y, i, n - 1, p);
    }
  }

  lemma {:induction false} CoverColumnsColumns(inst: Instance, w: int, h: int, x: int, y: int, n: int, p: (int, int))
    ensures p in CoverColumns(inst, w, h, x, y, n) ==> 0 <= x - p.0 < n
    decreases n
  {
    if n > 0 {
      CoverColumnsColumns(inst, w, h, x, y, n - 1, p);
      CoverColumnColumn(inst, w, h, x, y, n - 1, h, p);
    }
  }

  lemma {:induction false} CoverColumnsDistinct(inst: Instance, w: int, h: int, x: int, y: int, n: int)
    ensures Distinct(CoverColumns(inst, w, h, x, y, n))
    decreases n
  {
    if n > 0 {
      var prefix := CoverColumns(inst, w, h, x, y, n - 1);
      var col := CoverColumn(inst, w, h, x, y, n - 1, h);
      CoverColumnsDistinct(inst, w, h, x, y, n - 1);
      CoverColumnDistinct(inst, w, h, x, y, n - 1, h);
      forall u | u in prefix ensures u !in col {
        CoverColumnsColumns(inst, w, h, x, y, n - 1, u);
        CoverColumnColumn(inst, w, h, x, y, n - 1, h, u);
      }
      DistinctAppend(prefix, col);
    }
  }

  /** ... and each of them once. */
  lemma CoveringDistinct(inst: Instance, w: int, h: int, x: int, y: int)
    ensures Distinct(Covering(inst, w, h, x, y))
  {
    CoverColumnsDistinct(inst, w, h, x, y, w);
  }

  lemma ShapeVarsMembers(s: int, anchors: seq<(int, int)>, v: Var)
    ensures v in ShapeVars(s, anchors) <==> v.Rect? && v.shape == s && (v.ax, v.ay) in anchors
  {
    if v.Rect? && v.shape == s && (v.ax, v.ay) in anchors {
      var p :| 0 <= p < |anchors| && anchors[p] == (v.ax, v.ay);
      assert ShapeVars(s, anchors)[p] == v;
    }
  }

  lemma {:induction false} OverlapExprMembers(inst: Instance, shapes: seq<Shape>, x: int, y: int, n: int, v: Var)
    requires n <= |shapes|
    ensures v in OverlapExpr(inst, shapes, x, y, n) <==>
            v.Rect? && 0 <= v.shape < n &&
            (v.ax, v.ay) in Covering(inst, shapes[v.shape].width, shapes[v.shape].height, x, y)
    decreases n
  {
    if n > 0 {
      OverlapExprMembers(inst, shapes, x, y, n - 1, v);
      ShapeVarsMembers(n - 1, Covering(inst, shapes[n - 1].width, shapes[n - 1].height, x, y), v);
    }
  }

  lemma {:induction false} OverlapExprDistinct(inst: Instance, shapes: seq<Shape>, x: int, y: int, n: int)
    requires n <= |shapes|
    ensures Distinct(OverlapExpr(inst, shapes, x, y, n))
    decreases n
  {
    if n > 0 {
      var prefix := OverlapExpr(inst, shapes, x, y, n - 1);
      var anchors := Covering(inst, shapes[n - 1].width, shapes[n - 1].height, x, y);
      var vars := ShapeVars(n - 1, anchors);
      OverlapExprDistinct(inst, shapes, x, y, n - 1);
      CoveringDistinct(inst, shapes[n - 1].width, shapes[n - 1].height, x, y);
      assert Distinct(vars) by {
        forall p, q | 0 <= p < q < |vars| ensures vars[p] != vars[q] {
          assert (vars[p].ax, vars[p].ay) == anchors[p] && (vars[q].ax, vars[q].ay) == anchors[q];
        }
      }
      forall u | u in prefix ensures u !in vars {
        OverlapExprMembers(inst, shapes, x, y, n - 1, u);
        ShapeVarsMembers(n - 1, anchors, u);
      }
      DistinctAppend(prefix, vars);
    }
  }

  /** The selection variable of a shape's anchor whose rectangle contains
      `(x, y)` is summed for that cell ... */
  lemma PlacementInOverlap(inst: Instance, shapes: seq<Shape>, x: int, y: int, s: int, ax: int, ay: int)
    requires 0 <= s < |shapes|
    requires IsAnchor(inst, shapes[s].width, shapes[s].height, ax, ay)
    requires Contains(ax, ay, shapes[s].width, shapes[s].height, x, y)
    ensures PlacementVar(s, ax, ay) in OverlapExpr(inst, shapes, x, y, |shapes|)
  {
    CoveringMembers(inst, shapes[s].width, shapes[s].height, x, y, (ax, ay));
    OverlapExprMembers(inst, shapes, x, y, |shapes|, PlacementVar(s, ax, ay));
  }

  /** ... and every variable summed for the cell is one of those. */
  lemma OverlapPlacement(inst: Instance, shapes: seq<Shape>, x: int, y: int, v: Var)
    requires v in OverlapExpr(inst, shapes, x, y, |shapes|)
    ensures v.Rect? && 0 <= v.shape < |shapes|
    ensures IsAnchor(inst, shapes[v.shape].width, shapes[v.shape].height, v.ax, v.ay)
    ensures Contains(v.ax, v.ay, shapes[v.shape].width, shapes[v.shape].height, x, y)
  {
    OverlapExprMembers(inst, shapes, x, y, |shapes|, v);
    CoveringMembers(inst, shapes[v.shape].width, shapes[v.shape].height, x, y, (v.ax, v.ay));
  }

  lemma InclusionsAppend(cell: Var, s: seq<Var>, t: seq<Var>)
    ensures Inclusions(cell, s + t) == Inclusions(cell, s) + Inclusions(cell, t)
  {
  }

  /** The inclusion constraints of a cell are `cell >= rect` for exactly
      the variables summed for it, in the same order. */
  lemma {:induction false} CellInclusionsAre(inst: Instance, shapes: seq<Shape>, x: int, y: int, n: int)
    requires n <= |shapes|
    ensures CellInclusions(inst, shapes, x, y, n) ==
            Inclusions(Cell(Index(inst.width, x, y)), OverlapExpr(inst, shapes, x, y, n))
    decreases n
  {
    if n > 0 {
      CellInclusionsAre(inst, shapes, x, y, n - 1);
      InclusionsAppend(Cell(Index(inst.width, x, y)), OverlapExpr(inst, shapes, x, y, n - 1),
                       ShapeVars(n - 1, Covering(inst, shapes[n - 1].width, shapes[n - 1].height, x, y)));
    }
  }

  lemma InclusionsHold(cell: Var, vars: seq<Var>, a: Assignment)
    requires Satisfies(Inclusions(cell, vars), a)
    ensures forall v :: v in vars ==> a(v) ==> a(cell)
  {
    forall v | v in vars ensures a(v) ==> a(cell) {
      var p :| 0 <= p < |vars| && vars[p] == v;
      assert Holds(Inclusions(cell, vars)[p], a);
    }
  }

  /** What the constraints of one cell say: at most one covering
      rectangle is selected, the cell is selected only if one is, and it is
      selected if one is. */
  lemma CellFacts(inst: Instance, shapes: seq<Shape>, part: CellPart, x: int, y: int, a: Assignment)
    requires Satisfies(CellConstraints(inst, shapes, part, x, y), a)
    ensures part != InclusionOnly ==> Sum(OverlapExpr(inst, shapes, x, y, |shapes|), a) <= 1
    ensures part != OverlapOnly ==>
              (a(Cell(Index(inst.width, x, y))) ==> Sum(OverlapExpr(inst, shapes, x, y, |shapes|), a) >= 1)
    ensures part != OverlapOnly ==>
              forall v :: v in OverlapExpr(inst, shapes, x, y, |shapes|) ==> a(v) ==> a(Cell(Index(inst.width, x, y)))
  {
    var e := OverlapExpr(inst, shapes, x, y, |shapes|);
    var cell := Cell(Index(inst.width, x, y));
    var incl := CellInclusions(inst, shapes, x, y, |shapes|);
    var cs := CellConstraints(inst, shapes, part, x, y);
    CellInclusionsAre(inst, shapes, x, y, |shapes|);
    match part
    case Combined =>
      SatisfiesAppend(incl, [SumAtMostOne(e), AtMostSum(cell, e)], a);
      assert Holds(cs[|incl|], a) && Holds(cs[|incl| + 1], a);
      InclusionsHold(cell, e, a);
    case OverlapOnly =>
      assert Holds(cs[0], a);
    case InclusionOnly =>
      SatisfiesAppend(incl, [AtMostSum(cell, e)], a);
      assert Holds(cs[|incl|], a);
      InclusionsHold(cell, e, a);
  }

  // ---------------------------------------------------------------------
  // Whole models.

  /** The shapes of an instance's catalog. */
  function Shapes(inst: Instance): (r: seq<Shape>)
    ensures r == Catalog(inst.maxRectSize) && PositiveShapes(r)
  {
    CatalogPositive(inst.maxRectSize);
    Catalog(inst.maxRectSize)
  }

  /** The model a program generates: the first two filter, the third does
      not. */
  function ModelOf(inst: Instance, style: Style): seq<Constraint>
    requires WellFormed(inst)
  {
    match style
    case Filtered => FilteredModel(inst)
    case Unfiltered => UnfilteredModel(inst)
  }

  /** Shape `s` of the catalog at anchor `(ax, ay)`. */
  predicate IsPlacement(inst: Instance, s: int, ax: int, ay: int) {
    0 <= s < |Shapes(inst)| && IsAnchor(inst, Shapes(inst)[s].width, Shapes(inst)[s].height, ax, ay)
  }

  /** The placement contains cell `(x, y)`. */
  predicate Covered(inst: Instance, s: int, ax: int, ay: int, x: int, y: int)
    requires 0 <= s < |Shapes(inst)|
  {
    Contains(ax, ay, Shapes(inst)[s].width, Shapes(inst)[s].height, x, y)
  }

  /** In a grid without absent cells the two filters agree. */
  lemma AdmissibleWithoutAbsent(inst: Instance, x: int, y: int, w: int, h: int)
    requires WellFormed(inst) && Inside(inst, x, y, w, h) && Absent !in inst.kinds
    ensures Admissible(inst, Filtered, x, y, w, h) <==> Admissible(inst, Unfiltered, x, y, w, h)
  {
    FootprintKindsMembers(inst, x, y, w, h, Absent);
    forall i, j | 0 <= i < w && 0 <= j < h ensures KindAt(inst, x, y, i, j) != Absent {
      IndexInRange(inst.width, inst.height, x + i, y + j);
      assert KindAt(inst, x, y, i, j) in inst.kinds;
    }
  }

  /** Every anchor's constraints occur in what the anchor loops emit. */
  lemma AnchorInAnchors(inst: Instance, style: Style, s: int, w: int, h: int, ok: (int, int) -> bool, next: nat,
                        ax: int, ay: int) returns (m: nat)
    requires 1 <= w && 1 <= h && IsAnchor(inst, w, h, ax, ay)
    ensures Included(AnchorConstraints(inst, style, s, w, h, ax, ay, ok(ax, ay), m).constraints,
                     Anchors(inst, style, s, w, h, ok, next).constraints)
  {
    var m1 := SweepIncludes(ShapeBody(inst, style, s, w, h, ok), inst.width - w + 1, next, ax);
    m := SweepIncludes(ColumnBody(inst, style, s, w, h, ok, ax), inst.height - h + 1, m1, ay);
    IncludedTrans(AnchorConstraints(inst, style, s, w, h, ax, ay, ok(ax, ay), m).constraints,
                  Step(ShapeBody(inst, style, s, w, h, ok), ax, m1).constraints,
                  Anchors(inst, style, s, w, h, ok, next).constraints);
  }

  /** ... and so in what the catalog loop emits. */
  lemma AnchorInShapes(inst: Instance, style: Style, s: int, ax: int, ay: int) returns (m: nat)
    requires WellFormed(inst) && IsPlacement(inst, s, ax, ay)
    ensures Shapes(inst)[s].width >= 1 && Shapes(inst)[s].height >= 1
    ensures Inside(inst, ax, ay, Shapes(inst)[s].width, Shapes(inst)[s].height)
    ensures Included(AnchorConstraints(inst, style, s, Shapes(inst)[s].width, Shapes(inst)[s].height, ax, ay,
                                       Admissible(inst, style, ax, ay, Shapes(inst)[s].width, Shapes(inst)[s].height),
                                       m).constraints,
                     ShapesConstraints(inst, style, Shapes(inst), 0).constraints)
  {
    var shapes := Shapes(inst);
    var w, h := shapes[s].width, shapes[s].height;
    var ok := AdmissibleAt(inst, style, w, h);
    var m0 := SweepIncludes(CatalogBody(inst, style, shapes), |shapes|, 0, s);
    m := AnchorInAnchors(inst, style, s, w, h, ok, m0, ax, ay);
    assert ok(ax, ay) == Admissible(inst, style, ax, ay, w, h);
    IncludedTrans(AnchorConstraints(inst, style, s, w, h, ax, ay, ok(ax, ay), m).constraints,
                  ShapeConstraints(inst, style, s, w, h, m0).constraints,
                  ShapesConstraints(inst, style, shapes, 0).constraints);
  }

  lemma ModelAnchor(inst: Instance, style: Style, s: int, ax: int, ay: int) returns (m: nat)
    requires WellFormed(inst) && IsPlacement(inst, s, ax, ay)
    ensures Shapes(inst)[s].width >= 1 && Shapes(inst)[s].height >= 1
    ensures Inside(inst, ax, ay, Shapes(inst)[s].width, Shapes(inst)[s].height)
    ensures Included(AnchorConstraints(inst, style, s, Shapes(inst)[s].width, Shapes(inst)[s].height, ax, ay,
                                       Admissible(inst, style, ax, ay, Shapes(inst)[s].width, Shapes(inst)[s].height),
                                       m).constraints,
                     ModelOf(inst, style))
  {
    var shapes := Shapes(inst);
    var w, h := shapes[s].width, shapes[s].height;
    m := AnchorInShapes(inst, style, s, ax, ay);
    var anchor := AnchorConstraints(inst, style, s, w, h, ax, ay, Admissible(inst, style, ax, ay, w, h), m).constraints;
    var shapePart := ShapesConstraints(inst, style, shapes, 0).constraints;
    match style
    case Filtered =>
      var zero := ZeroAbsent(inst.kinds, |inst.kinds|);
      var sweep := CellSweep(inst, shapes, Combined);
      assert ModelOf(inst, style) == zero + shapePart + sweep;
      IncludedAppend(anchor, zero, shapePart);
      IncludedAppend(anchor, zero + shapePart, sweep);
    case Unfiltered =>
      var over := CellSweep(inst, shapes, OverlapOnly);
      var incl := CellSweep(inst, shapes, InclusionOnly);
      assert ModelOf(inst, style) == shapePart + over + incl;
      IncludedAppend(anchor, shapePart, over);
      IncludedAppend(anchor, shapePart + over, incl);
  }

  lemma ModelCell(inst: Instance, style: Style, x: int, y: int, a: Assignment)
    requires WellFormed(inst) && Satisfies(ModelOf(inst, style), a)
    requires 0 <= x < inst.width && 0 <= y < inst.height
    ensures Sum(OverlapExpr(inst, Shapes(inst), x, y, |Shapes(inst)|), a) <= 1
    ensures a(Cell(Index(inst.width, x, y))) ==> Sum(OverlapExpr(inst, Shapes(inst), x, y, |Shapes(inst)|), a) >= 1
    ensures forall v :: v in OverlapExpr(inst, Shapes(inst), x, y, |Shapes(inst)|) ==> a(v) ==> a(Cell(Index(inst.width, x, y)))
  {
    var shapes := Shapes(inst);
    var shapePart := ShapesConstraints(inst, style, shapes, 0).constraints;
    match style
    case Filtered =>
      var zero := ZeroAbsent(inst.kinds, |inst.kinds|);
      var sweep := CellSweep(inst, shapes, Combined);
      CellInColumns(inst, shapes, Combined, inst.width, x, y);
      SatisfiesIncluded(CellConstraints(inst, shapes, Combined, x, y), zero + shapePart + sweep, a);
      CellFacts(inst, shapes, Combined, x, y, a);
    case Unfiltered =>
      var over := CellSweep(inst, shapes, OverlapOnly);
      var incl := CellSweep(inst, shapes, InclusionOnly);
      CellInColumns(inst, shapes, OverlapOnly, inst.width, x, y);
      CellInColumns(inst, shapes, InclusionOnly, inst.width, x, y);
      SatisfiesIncluded(CellConstraints(inst, shapes, OverlapOnly, x, y), shapePart + over + incl, a);
      SatisfiesIncluded(CellConstraints(inst, shapes, InclusionOnly, x, y), shapePart + over + incl, a);
      CellFacts(inst, shapes, OverlapOnly, x, y, a);
      CellFacts(inst, shapes, InclusionOnly, x, y, a);
  }

  /** One anchor's constraints: when its variable is 1, the filter's
      verdict on it was positive and all its cells are 1. */
  lemma AnchorSound(inst: Instance, style: Style, s: int, w: int, h: int, ax: int, ay: int, admissible: bool,
                    m: nat, a: Assignment)
    requires 1 <= w && 1 <= h
    requires Satisfies(AnchorConstraints(inst, style, s, w, h, ax, ay, admissible, m).constraints, a)
    ensures a(PlacementVar(s, ax, ay)) ==>
              admissible && forall i, j :: 0 <= i < w && 0 <= j < h ==> a(Cell(At(inst.width, ax, ay, i, j)))
  {
    var cs := AnchorConstraints(inst, style, s, w, h, ax, ay, admissible, m).constraints;
    if style == Filtered && !admissible {
      assert Holds(cs[0], a);
    } else {
      var r := PlacementVar(s, ax, ay);
      var cells := CellVars(FootprintIndices(inst.width, ax, ay, w, h));
      var p := ProductOf(inst, ax, ay, w, h, m);
      assert cs[..|p.constraints|] == p.constraints;
      SatisfiesAppend(p.constraints, cs[|p.constraints|..], a);
      assert cs == p.constraints + cs[|p.constraints|..];
      ReduceIsAnd(cells, m, a);
      assert Holds(cs[|p.constraints|], a);
      if style == Unfiltered {
        assert Holds(cs[|p.constraints| + 1], a);
      }
      forall i, j | 0 <= i < w && 0 <= j < h ensures a(r) ==> a(Cell(At(inst.width, ax, ay, i, j))) {
        FootprintAt(inst.width, ax, ay, w, h, i, j);
        assert cells[i * h + j] == Cell(At(inst.width, ax, ay, i, j));
      }
    }
  }

  /** Soundness of a model: a selected rectangle passes its program's
      filter, and every cell of it is selected. */
  lemma SelectedSound(inst: Instance, style: Style, a: Assignment, s: int, ax: int, ay: int)
    requires WellFormed(inst) && Satisfies(ModelOf(inst, style), a) && IsPlacement(inst, s, ax, ay)
    ensures a(PlacementVar(s, ax, ay)) ==>
              Admissible(inst, style, ax, ay, Shapes(inst)[s].width, Shapes(inst)[s].height) &&
              forall i, j :: 0 <= i < Shapes(inst)[s].width && 0 <= j < Shapes(inst)[s].height ==>
                a(Cell(At(inst.width, ax, ay, i, j)))
  {
    var m := ModelAnchor(inst, style, s, ax, ay);
    var w, h := Shapes(inst)[s].width, Shapes(inst)[s].height;
    var ok := Admissible(inst, style, ax, ay, w, h);
    SatisfiesIncluded(AnchorConstraints(inst, style, s, w, h, ax, ay, ok, m).constraints, ModelOf(inst, style), a);
    AnchorSound(inst, style, s, w, h, ax, ay, ok, m, a);
  }

  /** Two different placements that share a cell are never both selected. */
  lemma NoOverlap(inst: Instance, style: Style, a: Assignment,
                  s1: int, ax1: int, ay1: int, s2: int, ax2: int, ay2: int, x: int, y: int)
    requires WellFormed(inst) && Satisfies(ModelOf(inst, style), a)
    requires IsPlacement(inst, s1, ax1, ay1) && IsPlacement(inst, s2, ax2, ay2)
    requires s1 != s2 || ax1 != ax2 || ay1 != ay2
    requires Covered(inst, s1, ax1, ay1, x, y) && Covered(inst, s2, ax2, ay2, x, y)
    ensures !(a(PlacementVar(s1, ax1, ay1)) && a(PlacementVar(s2, ax2, ay2)))
  {
    var shapes := Shapes(inst);
    var v1, v2 := PlacementVar(s1, ax1, ay1), PlacementVar(s2, ax2, ay2);
    PlacementInOverlap(inst, shapes, x, y, s1, ax1, ay1);
    PlacementInOverlap(inst, shapes, x, y, s2, ax2, ay2);
    ModelCell(inst, style, x, y, a);
    SumTwo(OverlapExpr(inst, shapes, x, y, |shapes|), a, v1, v2);
  }

  /** Coverage: a selected cell lies in a selected placement. */
  lemma SelectedCellCovered(inst: Instance, style: Style, a: Assignment, x: int, y: int) returns (s: int, ax: int, ay: int)
    requires WellFormed(inst) && Satisfies(ModelOf(inst, style), a)
    requires 0 <= x < inst.width && 0 <= y < inst.height && a(Cell(Index(inst.width, x, y)))
    ensures IsPlacement(inst, s, ax, ay) && Covered(inst, s, ax, ay, x, y) && a(PlacementVar(s, ax, ay))
  {
    var shapes := Shapes(inst);
    ModelCell(inst, style, x, y, a);
    var v := SumWitness(OverlapExpr(inst, shapes, x, y, |shapes|), a);
    OverlapPlacement(inst, shapes, x, y, v);
    s, ax, ay := v.shape, v.ax, v.ay;
  }

  /** A cell covered by a selected placement is selected. */
  lemma CoveredCellSelected(inst: Instance, style: Style, a: Assignment, s: int, ax: int, ay: int, x: int, y: int)
    requires WellFormed(inst) && Satisfies(ModelOf(inst, style), a)
    requires IsPlacement(inst, s, ax, ay) && Covered(inst, s, ax, ay, x, y)
    ensures a(PlacementVar(s, ax, ay)) ==> a(Cell(Index(inst.width, x, y)))
  {
    var shapes := Shapes(inst);
    PlacementInOverlap(inst, shapes, x, y, s, ax, ay);
    ModelCell(inst, style, x, y, a);
  }

  // ---------------------------------------------------------------------
  // How often `AddRectangle` constrains each anchor.

  /** The constraints per anchor: one (`== 0` or `<= product`) when
      filtering, two (`<= product` and `<= 0/1`) otherwise. */
  function PerAnchor(style: Style): nat {
    match style
    case Filtered => 1
    case Unfiltered => 2
  }

  lemma MentionCountOne(c: Constraint, v: Var)
    ensures MentionCount([c], v) == if Mentions(c, v) then 1 else 0
  {
    assert [c][..0] == [];
  }

  lemma MentionCountTwo(c: Constraint, d: Constraint, v: Var)
    ensures MentionCount([c, d], v) == (if Mentions(c, v) then 1 else 0) + (if Mentions(d, v) then 1 else 0)
  {
    assert [c, d][..1] == [c];
    MentionCountOne(c, v);
  }

  /** Anchor `(ax, ay)`'s constraints mention the variable of anchor
      `(qx, qy)` of the same shape `PerAnchor(style)` times when the two are
      the same anchor, and never otherwise, whatever the filter's verdict. */
  lemma AnchorMentions(inst: Instance, style: Style, s: int, w: int, h: int, ax: int, ay: int,
                       admissible: bool, m: nat, qx: int, qy: int)
    requires 1 <= w && 1 <= h
    ensures MentionCount(AnchorConstraints(inst, style, s, w, h, ax, ay, admissible, m).constraints, PlacementVar(s, qx, qy)) ==
            if ax == qx && ay == qy then PerAnchor(style) else 0
  {
    var r := PlacementVar(s, ax, ay);
    var v := PlacementVar(s, qx, qy);
    if style == Filtered && !admissible {
      MentionCountOne(IsZero(r), v);
    } else {
      var cells := CellVars(FootprintIndices(inst.width, ax, ay, w, h));
      var p := ProductOf(inst, ax, ay, w, h, m);
      assert v !in cells;
      ReduceMentions(cells, m, v);
      assert v != p.result;
      match style
      case Filtered =>
        MentionCountOne(AtMost(r, p.result), v);
        MentionCountAppend(p.constraints, [AtMost(r, p.result)], v);
      case Unfiltered =>
        var bound := if admissible then 1 else 0;
        MentionCountTwo(AtMost(r, p.result), AtMostConst(r, bound), v);
        MentionCountAppend(p.constraints, [AtMost(r, p.result), AtMostConst(r, bound)], v);
    }
  }

  /** A loop whose iterations mention `v` `K` times in iteration `target`
      and never in any other mentions it `K` times in all when `target` is
      one of its iterations, and never otherwise. */
  lemma {:induction false} SweepMentions(b: Body, n: int, next: nat, v: Var, target: int, K: nat)
    requires Runnable(b)
    requires forall k, m: nat :: 0 <= k < n ==> MentionCount(Step(b, k, m).constraints, v) == if k == target then K else 0
    ensures MentionCount(Sweep(b, n, next).constraints, v) == if 0 <= target < n then K else 0
    decreases n
  {
    if n > 0 {
      var e := Sweep(b, n - 1, next);
      var c := Step(b, n - 1, e.next);
      assert Sweep(b, n, next).constraints == e.constraints + c.constraints;
      assert MentionCount(c.constraints, v) == if n - 1 == target then K else 0;
      SweepMentions(b, n - 1, next, v, target, K);
      MentionCountAppend(e.constraints, c.constraints, v);
    }
  }

  /** Rows `0 .. n - 1` of column `ax` mention the variable of anchor
      `(qx, qy)` `PerAnchor(style)` times when it is one of them. */
  lemma ColumnMentions(inst: Instance, style: Style, s: int, w: int, h: int, ok: (int, int) -> bool, ax: int, n: int,
                       next: nat, qx: int, qy: int)
    requires 1 <= w && 1 <= h
    ensures MentionCount(Sweep(ColumnBody(inst, style, s, w, h, ok, ax), n, next).constraints, PlacementVar(s, qx, qy)) ==
            if ax == qx && 0 <= qy < n then PerAnchor(style) else 0
  {
    var block := ColumnBody(inst, style, s, w, h, ok, ax);
    var target := if ax == qx then qy else -1;
    forall k, m: nat | 0 <= k < n
      ensures MentionCount(Step(block, k, m).constraints, PlacementVar(s, qx, qy)) == if k == target then PerAnchor(style) else 0
    {
      AnchorMentions(inst, style, s, w, h, ax, k, ok(ax, k), m, qx, qy);
    }
    SweepMentions(block, n, next, PlacementVar(s, qx, qy), target, PerAnchor(style));
  }

  /** The anchor loops constrain the variable of every anchor of the shape
      exactly `PerAnchor(style)` times, and mention no other placement
      variable of the shape, whatever the filter's verdicts. */
  lemma AnchorsMentions(inst: Instance, style: Style, s: int, w: int, h: int, ok: (int, int) -> bool, next: nat,
                        qx: int, qy: int)
    requires 1 <= w && 1 <= h
    ensures MentionCount(Anchors(inst, style, s, w, h, ok, next).constraints, PlacementVar(s, qx, qy)) ==
            if IsAnchor(inst, w, h, qx, qy) then PerAnchor(style) else 0
  {
    var block := ShapeBody(inst, style, s, w, h, ok);
    var target := if 0 <= qy < inst.height - h + 1 then qx else -1;
    forall k, m: nat | 0 <= k < inst.width - w + 1
      ensures MentionCount(Step(block, k, m).constraints, PlacementVar(s, qx, qy)) == if k == target then PerAnchor(style) else 0
    {
      ColumnMentions(inst, style, s, w, h, ok, k, inst.height - h + 1, m, qx, qy);
    }
    SweepMentions(block, inst.width - w + 1, next, PlacementVar(s, qx, qy), target, PerAnchor(style));
  }

  /** `AddRectangle` constrains the variable of every anchor of its shape
      exactly `PerAnchor(style)` times (one `== 0` or `<= product`
      constraint when filtering), and no other position of it. */
  lemma ShapeMentions(inst: Instance, style: Style, s: int, w: int, h: int, next: nat, qx: int, qy: int)
    requires WellFormed(inst) && 1 <= w && 1 <= h
    ensures MentionCount(ShapeConstraints(inst, style, s, w, h, next).constraints, PlacementVar(s, qx, qy)) ==
            if IsAnchor(inst, w, h, qx, qy) then PerAnchor(style) else 0
  {
    AnchorsMentions(inst, style, s, w, h, AdmissibleAt(inst, style, w, h), next, qx, qy);
  }

  /** A loop whose every iteration emits nothing emits nothing. */
  lemma {:induction false} SweepEmpty(b: Body, n: int, next: nat)
    requires Runnable(b)
    requires forall k, m: nat :: 0 <= k < n ==> Step(b, k, m) == Emitted([], m)
    ensures Sweep(b, n, next) == Emitted([], next)
    decreases n
  {
    if n > 0 {
      SweepEmpty(b, n - 1, next);
    }
  }

  /** A shape wider or taller than the grid has no anchors and emits
      nothing. */
  lemma ShapeConstraintsEmpty(inst: Instance, style: Style, s: int, w: int, h: int, next: nat)
    requires WellFormed(inst) && 1 <= w && 1 <= h && (w > inst.width || h > inst.height)
    ensures ShapeConstraints(inst, style, s, w, h, next) == Emitted([], next)
  {
    if w <= inst.width {
      SweepEmpty(ShapeBody(inst, style, s, w, h, AdmissibleAt(inst, style, w, h)), inst.width - w + 1, next);
    }
  }

  // ---------------------------------------------------------------------
  // Absent cells.

  lemma {:induction false} ZeroAbsentMembers(kinds: seq<Kind>, n: int, c: Constraint)
    requires n <= |kinds|
    ensures c in ZeroAbsent(kinds, n) <==> c.IsZero? && c.v.Cell? && 0 <= c.v.k < n && kinds[c.v.k] == Absent
    decreases n
  {
    if n > 0 {
      ZeroAbsentMembers(kinds, n - 1, c);
    }
  }

  /** `InitBaseVariables` emits one `== 0` per absent cell and nothing else. */
  lemma {:induction false} ZeroAbsentCount(kinds: seq<Kind>, n: int, k: int)
    requires 0 <= n <= |kinds|
    ensures |ZeroAbsent(kinds, n)| == Count(kinds[..n], Absent)
    ensures MentionCount(ZeroAbsent(kinds, n), Cell(k)) == (if 0 <= k < n && kinds[k] == Absent then 1 else 0)
    decreases n
  {
    if n > 0 {
      ZeroAbsentCount(kinds, n - 1, k);
      var prev := ZeroAbsent(kinds, n - 1);
      assert kinds[..n][..n - 1] == kinds[..n - 1];
      assert Count(kinds[..n], Absent) == Count(kinds[..n - 1], Absent) + (if kinds[n - 1] == Absent then 1 else 0);
      if kinds[n - 1] == Absent {
        var tail := [IsZero(Cell(n - 1))];
        assert ZeroAbsent(kinds, n) == prev + tail;
        MentionCountAppend(prev, tail, Cell(k));
        assert tail[..0] == [];
        assert MentionCount(tail, Cell(k)) == (if k == n - 1 then 1 else 0);
      } else {
        assert ZeroAbsent(kinds, n) == prev + [];
        assert prev + [] == prev;
      }
    }
  }

  /** ... none of them, for every absent cell. */
  lemma AbsentCellsZero(inst: Instance, a: Assignment)
    requires WellFormed(inst) && Satisfies(FilteredModel(inst), a)
    ensures forall k :: 0 <= k < |inst.kinds| && inst.kinds[k] == Absent ==> !a(Cell(k))
  {
    forall k | 0 <= k < |inst.kinds| && inst.kinds[k] == Absent ensures !a(Cell(k)) {
      AbsentNeverSelected(inst, a, k);
    }
  }

  /** The first two programs never select an absent cell. */
  lemma AbsentNeverSelected(inst: Instance, a: Assignment, k: int)
    requires WellFormed(inst) && Satisfies(FilteredModel(inst), a)
    requires 0 <= k < |inst.kinds| && inst.kinds[k] == Absent
    ensures !a(Cell(k))
  {
    var zero := ZeroAbsent(inst.kinds, |inst.kinds|);
    ZeroAbsentMembers(inst.kinds, |inst.kinds|, IsZero(Cell(k)));
    var rest := ShapesConstraints(inst, Filtered, Shapes(inst), 0).constraints + CellSweep(inst, Shapes(inst), Combined);
    assert FilteredModel(inst) == zero + rest;
    SatisfiesIncluded([IsZero(Cell(k))], FilteredModel(inst), a);
    assert Holds([IsZero(Cell(k))][0], a);
  }

  // ---------------------------------------------------------------------
  // One total per cell.

  lemma {:induction false} OverlapColumnAt(inst: Instance, shapes: seq<Shape>, x: int, n: int, y: int)
    requires 0 <= n
    ensures |CellColumn(inst, shapes, OverlapOnly, x, n)| == n
    ensures 0 <= y < n ==> CellColumn(inst, shapes, OverlapOnly, x, n)[y] == SumAtMostOne(OverlapExpr(inst, shapes, x, y, |shapes|))
    decreases n
  {
    if n > 0 {
      OverlapColumnAt(inst, shapes, x, n - 1, y);
    }
  }

  lemma {:induction false} OverlapColumnsAt(inst: Instance, shapes: seq<Shape>, n: int, x: int, y: int)
    requires 0 <= n && 0 <= inst.height
    ensures |CellColumns(inst, shapes, OverlapOnly, n)| == RowStart(inst.height, n)
    ensures 0 <= x < n && 0 <= y < inst.height ==>
              0 <= RowStart(inst.height, x) + y < RowStart(inst.height, n) &&
              CellColumns(inst, shapes, OverlapOnly, n)[RowStart(inst.height, x) + y] ==
              SumAtMostOne(OverlapExpr(inst, shapes, x, y, |shapes|))
    decreases n
  {
    if n > 0 {
      var prev := CellColumns(inst, shapes, OverlapOnly, n - 1);
      OverlapColumnsAt(inst, shapes, n - 1, x, y);
      OverlapColumnAt(inst, shapes, n - 1, inst.height, y);
      if 0 <= x < n - 1 && 0 <= y < inst.height {
        RowStartMonotone(inst.height, x + 1, n - 1);
      } else if x == n - 1 && 0 <= y < inst.height {
        RowStartMonotone(inst.height, 0, x);
      }
    }
  }

  /** The first loop of the third program's `Solve` adds exactly one
      constraint per cell, `overlapExpr <= 1` over the anchors covering the
      cell: `width*height` of them, cell `(x, y)`'s at `x*height + y`. */
  lemma OverlapSweepAt(inst: Instance, shapes: seq<Shape>, x: int, y: int)
    requires WellFormed(inst) && 0 <= x < inst.width && 0 <= y < inst.height
    ensures |CellSweep(inst, shapes, OverlapOnly)| == inst.width * inst.height
    ensures 0 <= x * inst.height + y < inst.width * inst.height
    ensures CellSweep(inst, shapes, OverlapOnly)[x * inst.height + y] == SumAtMostOne(OverlapExpr(inst, shapes, x, y, |shapes|))
  {
    OverlapColumnsAt(inst, shapes, inst.width, x, y);
    RowStartIs(inst.height, inst.width);
    RowStartIs(inst.height, x);
    assert inst.height * inst.width == inst.width * inst.height;
    assert inst.height * x == x * inst.height;
  }
}
