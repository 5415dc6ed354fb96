/** Row-major cell indexing (`index(i, j) = i + width*j`) and the two
    orders in which the programs walk a rectangle of cells: column by column
    (`for i < w { for j < h }`, the footprint loops) and row by row
    (`for j { for i }`, the sub-matrix copies of two of the programs). */
module Indexing {

  /** `index(i, j)` of a grid `width` cells wide. */
  function Index(width: int, i: int, j: int): int {
    i + width * j
  }

  /** Appending in two steps is appending once (the loops' invariants
      extend a prefix by one iteration's output). */
  lemma AppendAssoc<T>(a: seq<T>, b: seq<T>, c: seq<T>)
    ensures (a + b) + c == a + (b + c)
  {
  }

  /** Appending keeps a prefix. */
  lemma PrefixSnoc<T>(s: seq<T>, x: T, n: int)
    requires 0 <= n <= |s|
    ensures (s + [x])[..n] == s[..n]
  {
  }

  /** Where row `r` of a grid `across` cells wide starts, `across * r`,
      counted up row by row. */
  function RowStart(across: int, r: int): int
    decreases r
  {
    if r <= 0 then 0 else RowStart(across, r - 1) + across
  }

  lemma {:induction false} RowStartIs(across: int, r: int)
    requires r >= 0
    ensures RowStart(across, r) == across * r
    decreases r
  {
    if r > 0 {
      RowStartIs(across, r - 1);
      assert across * (r - 1) + across == across * r;
    }
  }

  /** Rows further down start no earlier. */
  lemma {:induction false} RowStartMonotone(across: int, r: int, r': int)
    requires 0 <= across && r <= r'
    ensures RowStart(across, r) <= RowStart(across, r')
    decreases r' - r
  {
    if r < r' {
      RowStartMonotone(across, r, r' - 1);
    }
  }

  lemma IndexInRange(width: int, height: int, i: int, j: int)
    requires 0 <= i < width && 0 <= j < height
    ensures 0 <= Index(width, i, j) < width * height
  {
    assert width * j <= width * (height - 1);
  }

  /** Different cells of a grid have different indices. */
  lemma IndexInjective(width: int, i: int, j: int, i': int, j': int)
    requires 0 <= i < width && 0 <= i' < width && 0 <= j && 0 <= j'
    requires Index(width, i, j) == Index(width, i', j')
    ensures i == i' && j == j'
  {
    if j < j' {
      MulMonotone(width, j + 1, j');
    } else if j' < j {
      MulMonotone(width, j' + 1, j);
    }
  }

  lemma MulMonotone(a: int, b: int, c: int)
    requires 0 <= a && b <= c
    ensures a * b <= a * c
  {
  }

  /** Every index of a grid is the index of one of its cells. */
  lemma IndexOf(width: int, height: int, k: int)
    requires 0 <= width && 0 <= height && 0 <= k < width * height
    ensures width > 0 && 0 <= k % width < width && 0 <= k / width < height
    ensures k == Index(width, k % width, k / width)
  {
    if k / width >= height {
      MulMonotone(width, height, k / width);
    }
  }

  /** The index of cell `(x + i, y + j)`: cell `(i, j)` of the rectangle
      anchored at `(x, y)`. */
  function At(width: int, x: int, y: int, i: int, j: int): int {
    Index(width, x + i, y + j)
  }

  /** The indices of column `x + i`, rows `y .. y + n - 1`. */
  function ColumnIndices(width: int, x: int, y: int, i: int, n: nat): (r: seq<int>)
    ensures |r| == n
  {
    seq(n, j => At(width, x, y, i, j))
  }

  /** The footprint of the `w` by `h` rectangle at `(x, y)` in the order of
      the source's loops `for i < w { for j < h }`: `x+i + width*(y+j)`. */
  function FootprintIndices(width: int, x: int, y: int, w: nat, h: nat): (r: seq<int>)
    ensures |r| == RowStart(h, w)
    ensures 1 <= h ==> w <= |r|
  {
    if w == 0 then []
    else FootprintIndices(width, x, y, w - 1, h) + ColumnIndices(width, x, y, w - 1, h)
  }

  /** Entry `i*h + j` of the footprint is cell `(x+i, y+j)`. */
  lemma {:induction false} FootprintAt(width: int, x: int, y: int, w: nat, h: nat, i: int, j: int)
    requires 0 <= i < w && 0 <= j < h
    ensures 0 <= i * h + j < |FootprintIndices(width, x, y, w, h)|
    ensures FootprintIndices(width, x, y, w, h)[i * h + j] == At(width, x, y, i, j)
    decreases w
  {
    var prefix := FootprintIndices(width, x, y, w - 1, h);
    assert FootprintIndices(width, x, y, w, h) == prefix + ColumnIndices(width, x, y, w - 1, h);
    RowStartIs(h, w - 1);
    assert |prefix| == (w - 1) * h;
    if i < w - 1 {
      FootprintAt(width, x, y, w - 1, h, i, j);
    } else {
      assert i * h + j == |prefix| + j;
    }
  }

  /** The footprint holds exactly the cells of the rectangle. */
  lemma {:induction false} FootprintMembers(width: int, x: int, y: int, w: nat, h: nat, k: int)
    ensures k in FootprintIndices(width, x, y, w, h) <==>
            exists i, j :: 0 <= i < w && 0 <= j < h && k == At(width, x, y, i, j)
    decreases w
  {
    if w > 0 {
      FootprintMembers(width, x, y, w - 1, h, k);
      var col := ColumnIndices(width, x, y, w - 1, h);
      if k in col {
        var j :| 0 <= j < h && col[j] == k;
        assert 0 <= w - 1 < w && k == At(width, x, y, w - 1, j);
      }
      if exists i, j :: 0 <= i < w && 0 <= j < h && k == At(width, x, y, i, j) {
        var i, j :| 0 <= i < w && 0 <= j < h && k == At(width, x, y, i, j);
        if i == w - 1 { assert col[j] == k; }
      }
    }
  }

  /** A rectangle inside a `width` by `height` grid has its footprint inside
      the grid. */
  lemma FootprintInGrid(width: int, height: int, x: int, y: int, w: nat, h: nat)
    requires 0 <= x && x + w <= width && 0 <= y && y + h <= height
    ensures InRange(FootprintIndices(width, x, y, w, h), width * height)
  {
    var idx := FootprintIndices(width, x, y, w, h);
    forall p | 0 <= p < |idx| ensures 0 <= idx[p] < width * height {
      var k := idx[p];
      FootprintMembers(width, x, y, w, h, k);
      var i, j :| 0 <= i < w && 0 <= j < h && k == At(width, x, y, i, j);
      IndexInRange(width, height, x + i, y + j);
    }
  }

  /** The indices of row `y + j`, columns `x .. x + n - 1`. */
  function RowIndices(width: int, x: int, y: int, j: int, n: nat): (r: seq<int>)
    ensures |r| == n
  {
    seq(n, i => At(width, x, y, i, j))
  }

  /** The rectangle at `(x, y)` row by row: `for j < h { for i < w }`. */
  function RowMajorIndices(width: int, x: int, y: int, w: nat, h: nat): (r: seq<int>)
    ensures |r| == w * h
  {
    if h == 0 then []
    else RowMajorIndices(width, x, y, w, h - 1) + RowIndices(width, x, y, h - 1, w)
  }

  /** Entry `i + w*j` of the row-by-row walk is cell `(x+i, y+j)`: the walk
      lays the rectangle out as a grid of its own, `w` cells wide. */
  lemma {:induction false} RowMajorAt(width: int, x: int, y: int, w: nat, h: nat, i: int, j: int)
    requires 0 <= i < w && 0 <= j < h
    ensures 0 <= Index(w, i, j) < w * h
    ensures RowMajorIndices(width, x, y, w, h)[Index(w, i, j)] == At(width, x, y, i, j)
    decreases h
  {
    IndexInRange(w, h, i, j);
    if j < h - 1 {
      RowMajorAt(width, x, y, w, h - 1, i, j);
      IndexInRange(w, h - 1, i, j);
    } else {
      assert Index(w, i, j) == w * (h - 1) + i;
    }
  }

  lemma RowMajorInGrid(width: int, height: int, x: int, y: int, w: nat, h: nat)
    requires 0 <= x && x + w <= width && 0 <= y && y + h <= height
    ensures InRange(RowMajorIndices(width, x, y, w, h), width * height)
  {
    forall k | 0 <= k < |RowMajorIndices(width, x, y, w, h)|
      ensures 0 <= RowMajorIndices(width, x, y, w, h)[k] < width * height
    {
      IndexOf(w, h, k);
      RowMajorAt(width, x, y, w, h, k % w, k / w);
      IndexInRange(width, height, x + k % w, y + k / w);
    }
  }

  /** All of `idx` are indices of a sequence of length `n`. */
  predicate InRange(idx: seq<int>, n: int) {
    forall k :: 0 <= k < |idx| ==> 0 <= idx[k] < n
  }

  /** The elements of `cells` at the indices `idx`, in that order. */
  function Gather<T>(cells: seq<T>, idx: seq<int>): (r: seq<T>)
    requires InRange(idx, |cells|)
    ensures |r| == |idx|
  {
    seq(|idx|, k requires 0 <= k < |idx| => cells[idx[k]])
  }

  /** The number of occurrences of `t` in `s`. */
  function Count<T(==)>(s: seq<T>, t: T): (r: nat)
    ensures r <= |s|
  {
    if s == [] then 0 else Count(s[..|s| - 1], t) + (if s[|s| - 1] == t then 1 else 0)
  }

  lemma {:induction false} CountAppend<T>(s: seq<T>, u: seq<T>, t: T)
    ensures Count(s + u, t) == Count(s, t) + Count(u, t)
    decreases |u|
  {
    if u == [] {
      assert s + u == s;
    } else {
      assert (s + u)[..|s + u| - 1] == s + u[..|u| - 1];
      CountAppend(s, u[..|u| - 1], t);
    }
  }

  /** No element of `s` occurs twice. */
  predicate Distinct<T(==)>(s: seq<T>) {
    forall p, q :: 0 <= p < q < |s| ==> s[p] != s[q]
  }

  lemma DistinctAppend<T>(s: seq<T>, t: seq<T>)
    requires Distinct(s) && Distinct(t)
    requires forall u :: u in s ==> u !in t
    ensures Distinct(s + t)
  {
    forall p, q | 0 <= p < q < |s + t| ensures (s + t)[p] != (s + t)[q] {
      if q < |s| {
        assert (s + t)[p] == s[p] && (s + t)[q] == s[q];
      } else if p >= |s| {
        assert (s + t)[p] == t[p - |s|] && (s + t)[q] == t[q - |s|];
      } else {
        assert (s + t)[p] in s && (s + t)[q] in t;
      }
    }
  }
}
