/** One iteration of each of the programs' loops, stated on the functions
    that specify the whole loop: what one more pushed element, one more
    anchor or one more catalog shape adds. The imperative models use these
    as the inductive steps of their loop invariants. */
module Steps {
  import opened LinearModel
  import opened Linearization
  import opened Indexing
  import opened Placement

  // ---------------------------------------------------------------------
  // Walks over a rectangle, one more element.

  lemma ColumnIndicesSnoc(width: int, x: int, y: int, i: int, n: nat)
    ensures ColumnIndices(width, x, y, i, n + 1) == ColumnIndices(width, x, y, i, n) + [At(width, x, y, i, n)]
  {
  }

  lemma RowIndicesSnoc(width: int, x: int, y: int, j: int, n: nat)
    ensures RowIndices(width, x, y, j, n + 1) == RowIndices(width, x, y, j, n) + [At(width, x, y, n, j)]
  {
  }

  lemma GatherSnoc<T>(cells: seq<T>, idx: seq<int>, k: int)
    requires InRange(idx, |cells|) && 0 <= k < |cells|
    ensures InRange(idx + [k], |cells|)
    ensures Gather(cells, idx + [k]) == Gather(cells, idx) + [cells[k]]
  {
  }

  lemma CellVarsSnoc(idx: seq<int>, k: int)
    ensures CellVars(idx + [k]) == CellVars(idx) + [Cell(k)]
  {
  }

  lemma ShapeVarsSnoc(s: int, anchors: seq<(int, int)>, p: (int, int))
    ensures ShapeVars(s, anchors + [p]) == ShapeVars(s, anchors) + [PlacementVar(s, p.0, p.1)]
  {
  }

  lemma InclusionsSnoc(cell: Var, vars: seq<Var>, v: Var)
    ensures Inclusions(cell, vars + [v]) == Inclusions(cell, vars) + [AtLeast(cell, v)]
  {
  }

  lemma ColumnKindsSnoc(inst: Instance, x: int, y: int, i: int, n: int)
    requires WellFormed(inst) && 0 <= x + i < inst.width && 0 <= y && 0 <= n && y + n < inst.height
    ensures ColumnKinds(inst, x, y, i, n + 1) == ColumnKinds(inst, x, y, i, n) + [KindAt(inst, x, y, i, n)]
  {
  }

  /** One more cell of a column scan: the cell's kind decides whether a
      missing cell has shown up; a missing cell anywhere in the column is
      one of the whole column. */
  lemma ColumnScanStep(inst: Instance, x: int, y: int, i: int, j: int, h: int, k: Kind)
    requires WellFormed(inst) && 0 <= x + i < inst.width && 0 <= y && 0 <= j < h && y + h <= inst.height
    requires k == KindAt(inst, x, y, i, j)
    ensures Absent !in ColumnKinds(inst, x, y, i, j + 1) <==> Absent !in ColumnKinds(inst, x, y, i, j) && k != Absent
    ensures k == Absent ==> Absent in ColumnKinds(inst, x, y, i, h)
  {
    ColumnKindsSnoc(inst, x, y, i, j);
    assert ColumnKinds(inst, x, y, i, h)[j] == k;
  }

  // ---------------------------------------------------------------------
  // Sweeps, one more iteration.

  /** One more iteration of a loop emits what its body emits from where the
      earlier iterations left the counter. */
  lemma SweepStep(b: Body, n: int, next: nat)
    requires Runnable(b) && n >= 0
    ensures Sweep(b, n + 1, next).constraints == Sweep(b, n, next).constraints + Step(b, n, Sweep(b, n, next).next).constraints
    ensures Sweep(b, n + 1, next).next == Step(b, n, Sweep(b, n, next).next).next
  {
  }

  /** Two loop bodies that agree on the first `n` iterations emit the same. */
  lemma {:induction false} SweepAgree(b1: Body, b2: Body, n: int, next: nat)
    requires Runnable(b1) && Runnable(b2)
    requires forall k, m: nat :: 0 <= k < n ==> Step(b1, k, m) == Step(b2, k, m)
    ensures Sweep(b1, n, next) == Sweep(b2, n, next)
    decreases n
  {
    if n > 0 {
      SweepAgree(b1, b2, n - 1, next);
    }
  }

  /** Running the catalog loop over one more shape: the earlier shapes emit
      what they did, then the new one, numbered `|shapes|`. */
  lemma ShapesSnoc(inst: Instance, style: Style, shapes: seq<Shape>, sh: Shape, next: nat)
    requires WellFormed(inst) && PositiveShapes(shapes) && PositiveShapes(shapes + [sh])
    requires 1 <= sh.width && 1 <= sh.height
    ensures var e := ShapesConstraints(inst, style, shapes, next);
            var c := ShapeConstraints(inst, style, |shapes|, sh.width, sh.height, e.next);
            ShapesConstraints(inst, style, shapes + [sh], next) == Emitted(e.constraints + c.constraints, c.next)
  {
    var b1, b2 := CatalogBody(inst, style, shapes + [sh]), CatalogBody(inst, style, shapes);
    forall k, m: nat | 0 <= k < |shapes| ensures Step(b1, k, m) == Step(b2, k, m) {
      assert (shapes + [sh])[k] == shapes[k];
    }
    SweepAgree(b1, b2, |shapes|, next);
    SweepStep(b1, |shapes|, next);
  }

  /** One more anchor of a column of `AddRectangle`'s loop. */
  lemma ColumnStep(inst: Instance, style: Style, s: int, w: int, h: int, ok: (int, int) -> bool, ax: int, j: int, next: nat)
    requires 1 <= w && 1 <= h && j >= 0
    ensures var e := Sweep(ColumnBody(inst, style, s, w, h, ok, ax), j, next);
            var c := AnchorConstraints(inst, style, s, w, h, ax, j, ok(ax, j), e.next);
            Sweep(ColumnBody(inst, style, s, w, h, ok, ax), j + 1, next) == Emitted(e.constraints + c.constraints, c.next)
  {
    SweepStep(ColumnBody(inst, style, s, w, h, ok, ax), j, next);
  }

  /** One more column of anchors. */
  lemma ShapeStep(inst: Instance, style: Style, s: int, w: int, h: int, ok: (int, int) -> bool, i: int, next: nat)
    requires 1 <= w && 1 <= h && i >= 0
    ensures var e := Sweep(ShapeBody(inst, style, s, w, h, ok), i, next);
            var c := Sweep(ColumnBody(inst, style, s, w, h, ok, i), inst.height - h + 1, e.next);
            Sweep(ShapeBody(inst, style, s, w, h, ok), i + 1, next) == Emitted(e.constraints + c.constraints, c.next)
  {
    SweepStep(ShapeBody(inst, style, s, w, h, ok), i, next);
  }

  // ---------------------------------------------------------------------
  // The queue reduction, one multiplication.

  /** Multiplying the two front variables into `Aux(next)` and pushing it
      leaves a queue whose reduction finishes the original one. */
  lemma ReduceStep(queue: seq<Var>, next: nat)
    requires |queue| > 1
    ensures var rest := Reduce(queue[2..] + [Aux(next)], next + 1);
            Reduce(queue, next) ==
            Product(rest.result, MultConstraints(Aux(next), queue[0], queue[1]) + rest.constraints, rest.next)
  {
  }

  /** The invariant of the reduction loop survives one multiplication:
      what the loop has added, followed by the reduction of what is still
      queued, is the reduction of the whole queue. */
  lemma ReduceInvariantStep(queue: seq<Var>, n0: nat, added: seq<Constraint>, q: seq<Var>, n: nat,
                            q': seq<Var>, n': nat, added': seq<Constraint>)
    requires |queue| >= 1 && |q| > 1
    requires q' == q[2..] + [Aux(n)] && n' == n + 1 && added' == added + MultConstraints(Aux(n), q[0], q[1])
    requires var p := Reduce(q, n);
             Reduce(queue, n0) == Product(p.result, added + p.constraints, p.next)
    ensures var p := Reduce(q', n');
            Reduce(queue, n0) == Product(p.result, added' + p.constraints, p.next)
  {
    ReduceStep(q, n);
    var rest := Reduce(q', n');
    AppendAssoc(added, MultConstraints(Aux(n), q[0], q[1]), rest.constraints);
  }

  // ---------------------------------------------------------------------
  // The catalog, one more shape.

  lemma CatalogRowSnoc(m: int, i: int, n: int)
    requires n >= 0
    ensures CatalogRow(m, i, n + 1) == CatalogRow(m, i, n) + (if i * (n + 1) <= m then [Shape(i, n + 1)] else [])
  {
  }
}
