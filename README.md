# Covering a grid with rectangles: the CPLEX models, in Dafny

The repository holds three programs that share one idea. A grid of cells is
given: some cells are *special* (a ham, a cross), some are plain, and in the
first two programs some do not exist. A catalog lists every rectangle shape
`w x h` with `w*h <= maxRectSize`. The program builds a 0/1 integer program
for the IBM CPLEX solver whose solutions choose placed rectangles so that:

- no two chosen rectangles share a cell;
- every chosen rectangle holds at least `minNumCross` special cells. In the
  first two programs, it also contains no missing cell;
- the number of covered cells is as large as possible.

A large grid may be cut into tiles that are modelled and solved one after
another.

- `MISRSolver.cpp` is a `Base` grid of typed blocks plus one `MISRSolver`
  object per tile. Its constructor builds the model. `Solve` writes the
  solution back as a decorated grid. `main` divides the grid, solves each
  tile and merges the solved tiles back.
- `HashCodePizza.cpp` is the same construction in a `SubProblem` class. It
  keeps a log of every constraint it adds. It divides the grid column by
  column and has no merge.
- `FittingRectangles.cpp` does it with free functions over globals. It
  never zeroes a cell and never filters a placement: it bounds each
  placement by its product and by the special-count test. Its overlap and
  inclusion constraints come from two separate loops. All constraints go
  to one global log.

The Dafny model keeps the programs' structure:

- `LinearModel` holds variables, constraints and assignments, plus a
  `Builder` class that stands for the CPLEX environment. Its
  `constraints` sequence is what `model.add` has received. `nextAux`
  counts the anonymous `IloBoolVar{env}`. `objective` is the maximised sum.
- `Linearization` holds the three-inequality product and the queue
  reduction of `AddProductConstraints`, as pure functions, with soundness
  and completeness.
- `Indexing` holds the linear index `i + width*j` and the walks over a
  rectangle, column by column and row by row.
- `Placement` holds cell kinds, the catalog and placement validity. It
  also holds pure functions that list exactly what each loop of the
  programs adds, in the order it adds it. The whole model is
  `FilteredModel` for the first two programs and `UnfilteredModel` for the
  third.
- `Selection` holds what every assignment satisfying a model means:
  - a chosen placement is valid and all its cells are chosen;
  - two chosen placements never share a cell;
  - a chosen cell lies in exactly one chosen placement.

  It also counts which constraints mention which variables.
- `Tiling` holds the tile arithmetic of `DivideBase` and the
  specification of the merge constructor, with the round trip
  "divide then merge gives back the grid".
- `MISRSolver`, `HashCodePizza` and `FittingRectangles` are imperative
  models, one per source file:
  - classes with the source's fields;
  - methods with the source's loops, each proved to add exactly what the
    pure function of `Placement` lists;
  - lemmas tying grids, tiles and solutions together.

CPLEX is left out: the solver's answer is a parameter, an `Assignment` from
variables to booleans. The model therefore proves what every solution
CPLEX can return satisfies, and how the programs use it.

Points where the code does less than its evident intent:

- The merge constructor does not check that its pieces tile the target
  grid. Here that is the precondition of `MISRSolver.Base.Merge`.
- In the third program the global `constraints` log is never cleared, so
  it grows across tiles. `FittingRectangles.Session` keeps the growing
  log.
- The third program's `CopySubMatrix` copies a tile column by column while
  the readers of its values use rows. See "Findings".
- The round trip of divide and merge holds for `1 <= numX <= width` and
  `1 <= numY <= height`, but the first program's `main` passes the counts
  unchecked. See "Findings".

## Model

| member | source | states |
|---|---|---|
| LinearModel.Builder.constructor | MISRSolver.cpp:179-182 | a fresh model has no constraint, no objective and no auxiliary variable yet |
| LinearModel.Builder.Add | MISRSolver.cpp:254 | `model.add` appends exactly the one constraint and changes nothing else |
| LinearModel.Builder.NewBoolVar | MISRSolver.cpp:333 | `IloBoolVar{env}` yields a variable never handed out before, and counts it |
| LinearModel.Builder.Maximize | MISRSolver.cpp:295 | the objective becomes exactly the given sum; the constraints are untouched |
| LinearModel.SatisfiesAppend | MISRSolver.cpp:254 | adding constraints one after another: satisfying the whole list is satisfying each part |
| LinearModel.SumAppend | MISRSolver.cpp:290-296 | the value of a concatenated sum is the sum of the values |
| LinearModel.SumTwo | MISRSolver.cpp:284 | two distinct chosen terms make a sum of at least 2, which `overlapExpr <= 1` forbids |
| LinearModel.SumWitness | MISRSolver.cpp:285 | a sum of at least 1 has a chosen term |
| Linearization.MultIsProduct | MISRSolver.cpp:332-338 | for 0/1 values, `res <= v0`, `res <= v1`, `res >= v0 + v1 - 1` hold exactly when `res == v0*v1` |
| Linearization.MultConstraintsHold | MISRSolver.cpp:332-338 | the three constraints of `AddMultConstraints` hold exactly when `res` is the AND of `v0` and `v1` |
| Linearization.Reduce | MISRSolver.cpp:351-363 | reducing a queue of `n` variables adds `3*(n-1)` constraints and `n-1` fresh variables; the result is the last fresh one, or the only variable when `n == 1` |
| Linearization.ReduceIsAnd | MISRSolver.cpp:340-364 | under every assignment satisfying the added constraints, the returned variable is true exactly when every queued cell variable is |
| Linearization.ReduceComplete | MISRSolver.cpp:340-364 | any values of the queued variables extend, changing only the fresh variables, to an assignment satisfying the added constraints |
| Linearization.ReduceMentions | MISRSolver.cpp:351-363 | the reduction's constraints mention no older variable outside the queue |
| Indexing.IndexInjective | MISRSolver.cpp:113-115 | `i + width*j` tells apart any two cells of the grid |
| Indexing.IndexOf | MISRSolver.cpp:113-115 | every index below `width*height` is the index of cell `(k % width, k / width)` |
| Indexing.IndexInRange | MISRSolver.cpp:113-115 | the index of a cell of the grid lies below `width*height` |
| Indexing.FootprintAt | MISRSolver.cpp:344-349 | the queue of `AddProductConstraints` holds cell `(x+i, y+j)` at position `i*h + j` |
| Indexing.FootprintMembers | MISRSolver.cpp:344-349 | an index is queued exactly when it is the index of a cell of the rectangle |
| Indexing.FootprintInGrid | MISRSolver.cpp:344-349 | every queued index of a rectangle inside the grid lies inside the grid |
| Indexing.RowMajorAt | MISRSolver.cpp:421-429 | the row-major walk of `CopySubMatrix` holds cell `(x+i, y+j)` at the tile's own index `i + w*j` |
| Indexing.RowMajorInGrid | MISRSolver.cpp:421-429 | every index the row-major walk reads lies inside the grid |
| Indexing.CountAppend | MISRSolver.cpp:98-107 | counting over a concatenation adds the counts |
| Placement.CatalogFacts | MISRSolver.cpp:259-267 | the catalog holds exactly the shapes `w x h` with `1 <= w, h <= maxRectSize` and `w*h <= maxRectSize`, widths first, each once |
| Placement.CatalogPositive | MISRSolver.cpp:259-267 | every catalog shape has positive sides |
| Placement.FootprintKindsAt | MISRSolver.cpp:366-379 | the kinds `IsValidRect` scans are the rectangle's cells, column by column |
| Placement.FootprintKindsMembers | MISRSolver.cpp:366-379 | a kind occurs in the scan exactly when some cell of the rectangle has it |
| Placement.ColumnSpecialsCount | MISRSolver.cpp:369-376 | the hams counted in one column are the special cells of that column |
| Placement.SpecialCountIsCount | FittingRectangles.cpp:135-145 | `ComputeSum` counts exactly the special cells of the rectangle, at most `w*h` |
| Placement.AnchorIndexFacts | MISRSolver.cpp:392-401 | `i + matrixW*j` gives each anchor of a shape its own slot below `matrixW*matrixH` |
| Placement.AnchorOfIndex | MISRSolver.cpp:386-390 | slot `k` is the anchor `(k % matrixW, k / matrixW)` the variable's name shows |
| Selection.SweepIncludes | MISRSolver.cpp:272-288 | every iteration's constraints end up in the loop's output |
| Selection.CellInColumns | MISRSolver.cpp:272-288 | the constraints of every cell end up in the output of the per-cell loops |
| Selection.CoveringMembers | MISRSolver.cpp:405-418 | the anchors `ConstructInclusionConstraintsAndOverlapExpr` visits are exactly the anchors whose rectangle contains the cell |
| Selection.CoveringDistinct | MISRSolver.cpp:405-418 | no anchor is visited twice for one cell |
| Selection.OverlapExprMembers | MISRSolver.cpp:272-288 | `overlapExpr` of a cell holds exactly the variables of the placements containing it |
| Selection.OverlapExprDistinct | MISRSolver.cpp:272-288 | no placement variable occurs twice in `overlapExpr` |
| Selection.PlacementInOverlap | MISRSolver.cpp:272-288 | every placement containing a cell is in that cell's `overlapExpr` |
| Selection.OverlapPlacement | MISRSolver.cpp:272-288 | every term of `overlapExpr` is a placement containing the cell |
| Selection.CellInclusionsAre | MISRSolver.cpp:405-418 | the inclusions of a cell are `cell >= v` for the terms of its `overlapExpr`, in order |
| Selection.InclusionsHold | MISRSolver.cpp:412 | when the inclusions hold, a chosen term forces the cell to be chosen |
| Selection.CellFacts | MISRSolver.cpp:275-285 | a cell's constraints make its overlap sum at most 1, and a chosen cell lies in a chosen placement that contains it |
| Selection.AdmissibleWithoutAbsent | FittingRectangles.cpp:166 | on a grid with no missing cell, `IsValidRect` and the third program's special-count bound accept the same placements |
| Selection.AnchorInAnchors | MISRSolver.cpp:392-401 | every anchor's constraints end up in its shape's output |
| Selection.ModelAnchor | MISRSolver.cpp:178-191 | every placement's constraints are in the whole model |
| Selection.ModelCell | MISRSolver.cpp:178-191 | every solution of the whole model satisfies each cell's overlap and inclusion facts |
| Selection.AnchorSound | MISRSolver.cpp:392-401 | a chosen placement passed the filter or bound, and all its cells are chosen |
| Selection.SelectedSound | MISRSolver.cpp:381-403 | in every solution a chosen placement is admissible and covers only chosen cells |
| Selection.NoOverlap | MISRSolver.cpp:284 | in every solution two different placements that share a cell are never both chosen |
| Selection.SelectedCellCovered | MISRSolver.cpp:285 | in every solution a chosen cell lies in a chosen placement |
| Selection.CoveredCellSelected | MISRSolver.cpp:412 | in every solution the cells of a chosen placement are chosen |
| Selection.AnchorMentions | MISRSolver.cpp:394-399 | an anchor's constraints mention its own variable once in the first two programs, and twice in the third; they mention no other anchor's variable |
| Selection.SweepMentions | MISRSolver.cpp:392-401 | a loop mentions a variable as often as the one iteration about it does |
| Selection.ColumnMentions | MISRSolver.cpp:393-400 | one column of anchors mentions each of its anchors' variables as often as the anchor does, and no other |
| Selection.AnchorsMentions | MISRSolver.cpp:392-401 | the anchor loops constrain every anchor's variable, and only variables of real anchors |
| Selection.ShapeMentions | MISRSolver.cpp:381-403 | `AddRectangle` constrains the variable of every anchor of its shape, and no variable outside the shape's anchors |
| Selection.ShapeConstraintsEmpty | MISRSolver.cpp:381-403 | a shape larger than the grid has no anchor and adds nothing |
| Selection.ZeroAbsentMembers | MISRSolver.cpp:253-255 | the constraints `InitBaseVariables` adds are exactly `blocksVars[k] == 0` for the missing cells |
| Selection.ZeroAbsentCount | MISRSolver.cpp:246-257 | one `== 0` per missing cell, and each missing cell's variable is zeroed once |
| Selection.AbsentCellsZero | MISRSolver.cpp:253-255 | no solution of the first two programs' model chooses a missing cell |
| Selection.AbsentNeverSelected | MISRSolver.cpp:253-255 | the same, for one missing cell |
| Selection.OverlapColumnsAt | FittingRectangles.cpp:254-266 | the first per-cell loop, after `n` columns, holds cell `(x, y)`'s `sum <= 1` at position `x*height + y` |
| Selection.OverlapSweepAt | FittingRectangles.cpp:254-266 | the first per-cell loop of `Solve` adds one `overlapExpr <= 1` per cell, `width*height` of them, cell `(x, y)`'s at `x*height + y` |
| Tiling.ExtentFacts | MISRSolver.cpp:431-451 | tile sides are never negative, and are positive when there are no more tiles than cells |
| Tiling.AxisCover | MISRSolver.cpp:431-451 | along one axis every cell lies in exactly one tile |
| Tiling.GridCover | MISRSolver.cpp:431-451 | every cell of the grid lies in exactly one tile |
| Tiling.TileInside | MISRSolver.cpp:440-447 | every tile lies inside the grid |
| Tiling.TilesInside | MISRSolver.cpp:431-451 | all tiles, in both orders, lie inside the grid |
| Tiling.TileAreas | MISRSolver.cpp:431-451 | the tiles' areas add up to the grid's area |
| Tiling.OwnerFacts | MISRSolver.cpp:66-96 | the merge's walk over accumulated widths finds the tile whose span holds the coordinate |
| Tiling.OwnerUnique | MISRSolver.cpp:66-96 | only one tile's span holds a coordinate |
| Tiling.OwnerStep | MISRSolver.cpp:84-94 | moving one cell on, the owning tile is the same or the next one |
| Tiling.MergeSpecAt | MISRSolver.cpp:66-96 | cell `k` of the merged grid is the owning tile's cell at the translated coordinate |
| Tiling.RowMajorCopyOf | MISRSolver.cpp:421-429 | the row-major copy of a region holds the grid's cell `(x+i, y+j)` at its own `(i, j)` |
| Tiling.RowMajorTiledBy | MISRSolver.cpp:431-451 | the row-major tiles of a cut are the tiles of its column widths and row heights |
| Tiling.MergeCopies | MISRSolver.cpp:66-96 | merging exact copies of the tiles of a grid gives back the grid |
| Tiling.DivideMerge | MISRSolver.cpp:66-96 | dividing a grid and merging the tiles gives back the grid |
| MISRSolver.Kinds | MISRSolver.cpp:28-57 | a missing block is absent, a ham (selected or not) special, a regular block plain |
| MISRSolver.TallyOf | MISRSolver.cpp:98-107 | the counters add up to the number of blocks added |
| MISRSolver.TallyCounts | MISRSolver.cpp:98-107 | `numRegular`, `numHam` and `numDoNotExists` count exactly the plain, special and missing blocks |
| MISRSolver.Base.Empty | MISRSolver.cpp:60 | the default grid is empty, with zero counters |
| MISRSolver.Base.FromBlocks | MISRSolver.cpp:62-64 | the grid holds the given blocks and sides, counters zero |
| MISRSolver.Base.AddBlock | MISRSolver.cpp:98-107 | the block is appended and exactly its class's counter goes up; the counters stay exact |
| MISRSolver.Base.Access | MISRSolver.cpp:117-119 | `access(i, j)` is the block at `i + width*j` |
| MISRSolver.Base.Merge | MISRSolver.cpp:66-96 | the merged grid has the target sides and, at every cell, the owning tile's block at the translated coordinate; counters exact |
| MISRSolver.Base.AddMergedRows | MISRSolver.cpp:77-95 | the rows of the merge, one after another, give exactly the merged grid |
| MISRSolver.Base.AddMergedRow | MISRSolver.cpp:84-94 | one row of the merge appends that row of the merged grid |
| MISRSolver.TileBlock | MISRSolver.cpp:88-93 | the block the merge fetches is the merged grid's cell |
| MISRSolver.TilesAcross | MISRSolver.cpp:68-75 | the first loop of the merge counts the tiles in one row of tiles |
| MISRSolver.CopySubMatrix | MISRSolver.cpp:421-429 | the copy holds the region row by row: its `(i, j)` is the grid's `(x+i, y+j)` |
| MISRSolver.DivideBase | MISRSolver.cpp:431-451 | `numX*numY` fresh tiles, row of tiles by row of tiles, each an exact copy of its region |
| MISRSolver.CutRow | MISRSolver.cpp:438-449 | one row of tiles appends a copy of each of its regions, keeping the earlier tiles |
| MISRSolver.CutTile | MISRSolver.cpp:440-447 | one tile has its region's sides (the last tile of a row or column takes the remainder) and copies it |
| MISRSolver.DividedTiled | MISRSolver.cpp:431-451 | the tiles of `DivideBase` tile the grid, and merging them gives back the grid |
| MISRSolver.DivideAndMerge | MISRSolver.cpp:477-481 | dividing a grid and merging the tiles gives a grid with the same sides and blocks |
| MISRSolver.OversizedCountNotTiled | MISRSolver.cpp:431-463 | as written: cut in 4 across a 3-wide grid the tile widths are `[0, 0, 0, 3]`, no tile list of those widths is a tiling, and the merge's first step moves to tile 1, which has no block |
| MISRSolver.CheckedDivideAndMerge | MISRSolver.cpp:461-481 | corrected: counts are accepted exactly when `1 <= numX <= width` and `1 <= numY <= height`, and accepted counts give back the grid |
| MISRSolver.Decorated | MISRSolver.cpp:308-328 | decorating keeps a block's class and marks it selected exactly when it exists and its variable is 1 |
| MISRSolver.Decorate | MISRSolver.cpp:304-330 | the solved grid decorates every block by its own variable |
| MISRSolver.DecorateTally | MISRSolver.cpp:304-330 | decorating keeps every kind and every counter |
| MISRSolver.ObjectiveCounts | MISRSolver.cpp:290-296 | when no missing cell is chosen, the objective counts the selected blocks of the solved grid |
| MISRSolver.SolvedGrid | MISRSolver.cpp:304-330 | for every solution, a block of the solved grid is selected exactly when its variable is 1, and the objective is the number of selected blocks |
| MISRSolver.DecoratedSelection | MISRSolver.cpp:304-330 | the same, from "no missing cell chosen" |
| MISRSolver.MISRSolver.constructor | MISRSolver.cpp:178-191 | the model is exactly the whole filtered model of the tile, the shape table the catalog, the objective every cell |
| MISRSolver.MISRSolver.InitBaseVariables | MISRSolver.cpp:246-257 | adds exactly one `== 0` per missing cell, in index order |
| MISRSolver.MISRSolver.InitRectVariables | MISRSolver.cpp:259-267 | adds the constraints of every catalog shape, in catalog order, and records the catalog |
| MISRSolver.MISRSolver.AddShapesOfWidth | MISRSolver.cpp:261-265 | one width of the catalog: its shapes are recorded and their constraints added |
| MISRSolver.MISRSolver.AddRectangle | MISRSolver.cpp:381-403 | adds exactly the constraints of every anchor of the shape, column by column |
| MISRSolver.MISRSolver.AddAnchorColumn | MISRSolver.cpp:393-400 | adds the constraints of the anchors of one column |
| MISRSolver.MISRSolver.AddAnchor | MISRSolver.cpp:394-399 | an invalid anchor gets `rect == 0`; a valid one gets the product's constraints and `rect <= product` |
| MISRSolver.MISRSolver.IsValidRect | MISRSolver.cpp:366-379 | true exactly when no cell is missing and at least `minNumCross` cells are hams |
| MISRSolver.MISRSolver.ScanColumn | MISRSolver.cpp:369-376 | one column: whether a missing cell occurs, and else how many hams |
| MISRSolver.MISRSolver.AddProductConstraints | MISRSolver.cpp:340-364 | adds the reduction of the rectangle's cell variables and returns its result |
| MISRSolver.MISRSolver.QueueCells | MISRSolver.cpp:344-349 | queues the rectangle's cell variables column by column |
| MISRSolver.MISRSolver.ReduceQueue | MISRSolver.cpp:351-363 | the queue loop adds exactly the reduction and returns its result |
| MISRSolver.MISRSolver.MultiplyFront | MISRSolver.cpp:352-358 | one multiplication: the two front variables leave, their product joins the back, and the loop invariant is kept |
| MISRSolver.MISRSolver.AddMultConstraints | MISRSolver.cpp:332-338 | a fresh variable and its three product constraints |
| MISRSolver.MISRSolver.ConstructInclusionConstraintsAndOverlapExpr | MISRSolver.cpp:405-418 | returns the variables of the shape's placements containing the cell, and adds `cell >= rect` for each |
| MISRSolver.MISRSolver.InclusionColumn | MISRSolver.cpp:410-415 | one offset column of that scan |
| MISRSolver.MISRSolver.InitOverlapConstraints | MISRSolver.cpp:272-288 | adds, cell by cell, its inclusions, `overlapExpr <= 1` and `cell <= overlapExpr` |
| MISRSolver.MISRSolver.OverlapColumn | MISRSolver.cpp:274-286 | the same for one column of cells |
| MISRSolver.MISRSolver.CellOverlap | MISRSolver.cpp:275-285 | the same for one cell |
| MISRSolver.MISRSolver.InitObjectiveFunction | MISRSolver.cpp:290-296 | the objective is the sum of all cell variables |
| MISRSolver.MISRSolver.FillSolvedBase | MISRSolver.cpp:304-330 | appends the decorated grid and copies the sides, keeping the counters exact |
| MISRSolver.MISRSolver.Solve | MISRSolver.cpp:193-204 | on success, with a solution of the built model, fills the solved grid, where a block is selected exactly when its cell is covered and the objective counts the selected blocks, and answers true; on failure changes nothing and answers false |
| HashCodePizza.Kinds | HashCodePizza.cpp:30-45 | a missing block is absent, a ham special, a regular block plain |
| HashCodePizza.Base.AccessIndex | HashCodePizza.cpp:43 | the index of a cell lies inside the blocks |
| HashCodePizza.Base.Access | HashCodePizza.cpp:44 | `access(i, j)` is the block at `i + width*j` |
| HashCodePizza.AccessIndexInjective | HashCodePizza.cpp:43 | two cells have the same index only when they are the same cell |
| HashCodePizza.InstanceOf | HashCodePizza.cpp:123-135 | the grid seen by the model: same sides, each cell's kind from its block |
| HashCodePizza.CopySubMatrix | HashCodePizza.cpp:342-360 | the copy holds the region row by row |
| HashCodePizza.DivideBase | HashCodePizza.cpp:362-382 | for positive counts, `numX*numY` tiles, column of tiles by column of tiles, each an exact copy of its region; for a negative count, no tile |
| HashCodePizza.CutColumn | HashCodePizza.cpp:369-380 | one column of tiles appends a copy of each of its regions, keeping the earlier tiles |
| HashCodePizza.CutTile | HashCodePizza.cpp:371-378 | one tile has its region's sides and copies it |
| HashCodePizza.DividedTiles | HashCodePizza.cpp:362-382 | tile `i*numY + j` starts at `(i*wD, j*hD)`, takes the remainder on the last column or row, and copies its region |
| HashCodePizza.DividedCover | HashCodePizza.cpp:362-382 | every cell lies in exactly one tile, and the areas add up to the grid |
| HashCodePizza.SubProblem.constructor | HashCodePizza.cpp:65-77 | model and log are exactly the whole filtered model, the objective every cell |
| HashCodePizza.SubProblem.AddConstraint | HashCodePizza.cpp:191-194 | adds the constraint to the model and to the log |
| HashCodePizza.SubProblem.InitBaseVariables | HashCodePizza.cpp:123-135 | adds exactly one `== 0` per missing cell |
| HashCodePizza.SubProblem.InitRectVariables | HashCodePizza.cpp:137-157 | adds the constraints of every catalog shape in catalog order |
| HashCodePizza.SubProblem.AddShapesOfWidth | HashCodePizza.cpp:140-147 | one width of the catalog |
| HashCodePizza.SubProblem.AddRectangle | HashCodePizza.cpp:242-264 | adds exactly the constraints of every anchor of the shape |
| HashCodePizza.SubProblem.AddAnchorColumn | HashCodePizza.cpp:254-261 | the anchors of one column |
| HashCodePizza.SubProblem.AddAnchor | HashCodePizza.cpp:255-260 | `rect == 0` for an invalid anchor, else the product and `rect <= product` |
| HashCodePizza.SubProblem.IsValidRect | HashCodePizza.cpp:230-240 | true exactly when no cell is missing and at least `minNumCross` cells are hams |
| HashCodePizza.SubProblem.ScanColumn | HashCodePizza.cpp:233-237 | one column of that scan |
| HashCodePizza.SubProblem.AddProductConstraints | HashCodePizza.cpp:204-228 | adds the reduction of the rectangle's cells and returns its result |
| HashCodePizza.SubProblem.QueueCells | HashCodePizza.cpp:208-213 | queues the rectangle's cell variables column by column |
| HashCodePizza.SubProblem.ReduceQueue | HashCodePizza.cpp:215-227 | the queue loop adds exactly the reduction |
| HashCodePizza.SubProblem.MultiplyFront | HashCodePizza.cpp:216-222 | one multiplication of the queue loop |
| HashCodePizza.SubProblem.AddMultConstraints | HashCodePizza.cpp:196-202 | a fresh variable and its three product constraints, logged |
| HashCodePizza.SubProblem.ConstructInclusionConstraintsAndOverlapExpr | HashCodePizza.cpp:266-279 | the shape's placements containing the cell, with `cell >= rect` for each |
| HashCodePizza.SubProblem.InclusionColumn | HashCodePizza.cpp:271-276 | one offset column of that scan |
| HashCodePizza.SubProblem.InitOverlapConstraints | HashCodePizza.cpp:159-175 | per cell: inclusions, `overlapExpr <= 1`, `cell <= overlapExpr` |
| HashCodePizza.SubProblem.OverlapColumn | HashCodePizza.cpp:161-174 | one column of cells |
| HashCodePizza.SubProblem.CellOverlap | HashCodePizza.cpp:162-172 | one cell |
| HashCodePizza.SubProblem.InitObjectiveFunction | HashCodePizza.cpp:177-183 | the objective is the sum of all cell variables |
| FittingRectangles.ConstructBase | FittingRectangles.cpp:41-43 | pairs the values with the sides, unchanged |
| FittingRectangles.Kinds | FittingRectangles.cpp:139 | a nonzero value is a cross (special), zero is blank |
| FittingRectangles.CopySubMatrix | FittingRectangles.cpp:64-72 | as written: the copy holds the region column by column, its position `j + h*i` holding the grid's `(x+i, y+j)` |
| FittingRectangles.CopyColumn | FittingRectangles.cpp:67-69 | one column of that copy |
| FittingRectangles.ColumnMajorCopyOf | FittingRectangles.cpp:64-72 | the column-by-column copy holds its region column by column |
| FittingRectangles.ColumnMajorTileMisread | FittingRectangles.cpp:64-72 | on the 2x2 grid `[0,1,0,0]` the copy is `[0,0,1,0]`, and reading it by rows misreads cell `(1,0)` |
| FittingRectangles.SquareTileTransposed | FittingRectangles.cpp:64-72 | read by rows, a square tile copied column by column is the transposed region |
| FittingRectangles.StripCopiesAgree | FittingRectangles.cpp:64-72 | on a one-cell-wide or one-cell-tall tile both orders agree, so only wider tiles are misread |
| FittingRectangles.CopySubMatrixRowMajor | FittingRectangles.cpp:64-72 | corrected: the copy holds the region row by row, as the readers expect |
| FittingRectangles.CopyRow | FittingRectangles.cpp:64-72 | one row of the corrected copy |
| FittingRectangles.DivideBase | FittingRectangles.cpp:74-94 | as written: for positive counts, `numX*numY` tiles, column-major, each a column-by-column copy of its region; for a negative count, no tile |
| FittingRectangles.CutColumn | FittingRectangles.cpp:81-92 | one column of tiles |
| FittingRectangles.CutTile | FittingRectangles.cpp:83-90 | one tile, with its region's sides |
| FittingRectangles.DividedTiles | FittingRectangles.cpp:74-94 | tile `i*numY + j` starts at `(i*wD, j*hD)`, takes the remainder at the edge, and holds its region column by column |
| FittingRectangles.DividedCover | FittingRectangles.cpp:74-94 | every cell lies in exactly one tile, and the areas add up to the grid |
| FittingRectangles.DivideBaseRowMajor | FittingRectangles.cpp:74-94 | corrected division: the same tiles, each an exact row-by-row copy of its region |
| FittingRectangles.CutColumnRowMajor | FittingRectangles.cpp:81-92 | one column of corrected tiles |
| FittingRectangles.CutTileRowMajor | FittingRectangles.cpp:83-90 | one corrected tile |
| FittingRectangles.RowMajorTilesRead | FittingRectangles.cpp:74-94 | in the corrected division, reading tile `i*numY + j` at `x + width*y` gives the grid's cell `(i*wD + x, j*hD + y)` |
| FittingRectangles.ReduceNoZero | FittingRectangles.cpp:120-132 | the product constraints are never `== 0` |
| FittingRectangles.AnchorsNoZero | FittingRectangles.cpp:159-170 | the anchor loops add bounds only |
| FittingRectangles.CellConstraintsNoZero | FittingRectangles.cpp:254-280 | a cell's constraints in the two per-cell loops are bounds only |
| FittingRectangles.UnfilteredNoZero | FittingRectangles.cpp:147-280 | the third program's model contains no `== 0` at all |
| FittingRectangles.Session.constructor | FittingRectangles.cpp:26-39 | the globals at start: the two parameters, an empty log, no tile, score zero |
| FittingRectangles.Session.AddConstraint | FittingRectangles.cpp:96-99 | adds the constraint to the model and to the global log |
| FittingRectangles.Session.AddMultConstraints | FittingRectangles.cpp:101-107 | a fresh variable and its three product constraints, logged |
| FittingRectangles.Session.AddProductConstraints | FittingRectangles.cpp:109-133 | adds the reduction of the rectangle's cells and returns its result |
| FittingRectangles.Session.QueueCells | FittingRectangles.cpp:113-118 | queues the rectangle's cell variables column by column |
| FittingRectangles.Session.ReduceQueue | FittingRectangles.cpp:120-132 | the queue loop adds exactly the reduction |
| FittingRectangles.Session.MultiplyFront | FittingRectangles.cpp:121-127 | one multiplication of the queue loop |
| FittingRectangles.Session.ComputeSum | FittingRectangles.cpp:135-145 | counts the nonzero cells of the rectangle, between 0 and `w*h` |
| FittingRectangles.Session.SumColumn | FittingRectangles.cpp:138-142 | one column of that count |
| FittingRectangles.Session.AddAnchor | FittingRectangles.cpp:161-168 | the product, `rect <= product`, and `rect <= (sum >= minNumCross ? 1 : 0)`, all logged |
| FittingRectangles.Session.AddAnchorColumn | FittingRectangles.cpp:160-169 | the anchors of one column |
| FittingRectangles.Session.AddRectangle | FittingRectangles.cpp:147-173 | adds exactly the unfiltered constraints of every anchor of the shape |
| FittingRectangles.Session.ConstructVarsArrays | FittingRectangles.cpp:209-212 | the shape's constraints, paired with its sides |
| FittingRectangles.Session.AddAllRectangles | FittingRectangles.cpp:215-236 | adds every catalog shape's constraints, in catalog order, and returns the catalog |
| FittingRectangles.Session.AddShapesOfWidth | FittingRectangles.cpp:220-224 | one width of the catalog |
| FittingRectangles.Session.ConstructOverlapExpr | FittingRectangles.cpp:175-187 | the shape's placements containing the cell, adding nothing |
| FittingRectangles.Session.OverlapColumn | FittingRectangles.cpp:179-185 | one offset column of that scan |
| FittingRectangles.Session.ConstructInclusionConstraintsAndExpr | FittingRectangles.cpp:189-204 | the same placements, with `cell >= rect` for each, logged |
| FittingRectangles.Session.InclusionColumn | FittingRectangles.cpp:194-202 | one offset column of that scan |
| FittingRectangles.Session.AddOverlapConstraints | FittingRectangles.cpp:254-266 | the first per-cell loop: `overlapExpr <= 1` for every cell |
| FittingRectangles.Session.OverlapCellColumn | FittingRectangles.cpp:255-265 | one column of cells of that loop |
| FittingRectangles.Session.CellOverlap | FittingRectangles.cpp:256-264 | one cell of that loop |
| FittingRectangles.Session.AddInclusionConstraints | FittingRectangles.cpp:268-280 | the second per-cell loop: the inclusions and `cell <= expr` for every cell |
| FittingRectangles.Session.InclusionCellColumn | FittingRectangles.cpp:269-279 | one column of cells of that loop |
| FittingRectangles.Session.CellInclusion | FittingRectangles.cpp:270-278 | one cell of that loop |
| FittingRectangles.Session.AddObjective | FittingRectangles.cpp:282-286 | the objective is the sum of all cell variables |
| FittingRectangles.Session.Solve | FittingRectangles.cpp:240-323 | the tile's model is exactly the unfiltered model, the global log grows by it, and the score grows by the best objective when the solve succeeds |
| FittingRectangles.Session.SolveTile | FittingRectangles.cpp:337-341 | sets the current tile from a divided base, then solves it |

## Left out

- CPLEX itself. The search, the solver status, `getValue` and
  `getBestObjValue` are left out. A solution is an `Assignment` parameter,
  and both the success flag of `MISRSolver.MISRSolver.Solve` and
  `FittingRectangles.Session.Solve` and the best objective value are
  parameters.
- `GetBestScore` and the floating-point objective. `sumScores += ...`
  adds a `double` to an `int`. `FittingRectangles.Session.Solve` takes the
  best value as an `int`, and the model does not capture the truncation.
- 32-bit `int` arithmetic. Indices and counters are unbounded integers,
  so an overflow of `numNodes`, `matrixW*matrixH` or `sumScores` on huge
  grids is not modelled.
- File input and output. `LoadBaseFromFile` and `LoadBase` are left out:
  they read a file, and `LoadBase`'s outputs (the two parameters, the
  initial grid) enter as constructor and method arguments. Also left out
  are `PrintSolution`, `OutputSolution`, `PrintBase`, `PrintConstraints`,
  the `cout`/`clog` messages and the `#if 0` printing loop. They only
  write text.
- The variable names built with `snprintf`. Only the anchor they name is
  kept, through `Placement.AnchorOfIndex`.
- `SetCplexParameters` and the empty `InitMIPStart`. They only configure
  the solver.
- The `#else` branches of the catalog loops, which list six fixed shapes.
  They are compiled out; the model follows the `#if 1` branch.
- Variable arrays are not materialised. `blocksVars[k]` is `Cell(k)`,
  `rect[i + matrixW*j]` of catalog shape `s` is `Rect(s, i, j)`, and each
  `IloBoolVar{env}` is `Aux(n)` with a running counter.
  `Placement.AnchorIndexFacts` and `Placement.AnchorOfIndex` connect the
  slot numbers to the anchors.
- `main` of each program, as a whole. The argument parsing and the
  solver vector are left out. The divide and merge steps of the first
  program are `MISRSolver.DivideAndMerge`. The third program's loop body
  is `FittingRectangles.Session.SolveTile`.
- `HashCodePizza.cpp`'s `Solve` and `GetBestScore`. They only call the
  solver and print. Also left out are the `numCross`/`numBlank`/
  `numDoNotExists` counters that `LoadBaseFromFile` fills, which are only
  printed.
- `MISRSolver.Base.Merge`: requires that the pieces tile the target with
  tiles at least one cell wide and high. The source does no check, and
  with other pieces it reads out of bounds. `main` can make such pieces:
  see the next line and "Findings".
- `MISRSolver.DivideAndMerge`: the round trip holds only for `1 <= numX
  <= width` and `1 <= numY <= height`. `main` passes the counts it reads
  unchecked. A count above the side gives zero-wide or zero-high tiles
  (`MISRSolver.OversizedCountNotTiled`). A count of 0 divides by zero at
  MISRSolver.cpp:434. A negative count gives no tiles, so the merge reads
  `bases[0]` of an empty list at MISRSolver.cpp:70. None of these runs is
  modelled; `MISRSolver.DivideBase` requires counts of at least 1, and the
  checked form is `MISRSolver.CheckedDivideAndMerge`.
- `HashCodePizza.DivideBase` and `FittingRectangles.DivideBase`: a count
  of 0 divides by zero (HashCodePizza.cpp:365, FittingRectangles.cpp:77)
  and is excluded by the precondition. Negative counts are modelled: they
  give no tiles.
- `MISRSolver.MISRSolver.Solve`: stated for one solve. A second solve
  would append the decorated grid a second time; the model states exactly
  that append and nothing about repeated solves.
- `FittingRectangles.Session`: the globals are one object. `baseSet` is
  the tile's values themselves, not a pointer into the vector of tiles.
  No aliasing is modelled.
- The claim "each cell's variable is bounded by its `overlapExpr` exactly
  once" is not stated as a count. The per-cell methods state the exact
  list of constraints they add (`Placement.CellSweep`). Only the
  `overlapExpr <= 1` loop of the third program has a per-position lemma,
  `Selection.OverlapSweepAt`.

## Findings

| source | as written | input that shows it | evidently intended | confidence | as-written member | corrected member |
|---|---|---|---|---|---|---|
| MISRSolver.cpp:461-463 | `main` passes the subdivision counts read by `atoi` to `DivideBase` unchecked, and the merge at line 481 trusts the tiles | width 3, `numX = 4`: `wD = 0`, the tile widths are `[0, 0, 0, 3]`; at `i = 0` the merge moves to tile 1 and calls `access(0, 0)` on its empty block vector | refuse counts outside `1..width` and `1..height` before dividing | not executed | MISRSolver.OversizedCountNotTiled | MISRSolver.CheckedDivideAndMerge |
| FittingRectangles.cpp:64-72 | `CopySubMatrix` pushes the cells of a tile column by column (`i` outer, `j` inner); the only readers of a tile's values, `ComputeSum` at line 139 and the printing at lines 304, 312 and 314, read it row by row, at `x + numNodesX*y` (`AddProductConstraints` at line 116 indexes the cell variables, whose layout is row-major everywhere, so the misread reaches only the special-cell count and the printed grid) | the 2x2 grid `[0, 1, 0, 0]` cut into one tile: the tile becomes `[0, 0, 1, 0]`, and cell `(1, 0)` reads 0 where the grid has 1; every tile at least 2 wide and 2 tall is read transposed or scrambled | copy the tile row by row (`j` outer, `i` inner), as `MISRSolver.cpp` and `HashCodePizza.cpp` do | not executed | FittingRectangles.ColumnMajorTileMisread | FittingRectangles.DivideBaseRowMajor |
