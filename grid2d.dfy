/** The square grid of candidate lists both 2-D solvers work on, addressed
    `cells[x][y]`; the direction offsets; and what the scans `observe`,
    `hasError` and `hasFinished` look for in it. */
module Grid2D {
  import opened Lists

  datatype Option<T> = None | Some(value: T)

  /** A direction `[dx, dy]`. */
  datatype Dir = Dir(dx: int, dy: int)

  /** A cell position `[x, y]`. */
  datatype Pos = Pos(x: int, y: int)

  /** The four directions in the order the solvers try them: `[1,0]`,
      `[-1,0]`, `[0,1]`, `[0,-1]`. */
  const Directions: seq<Dir> := [Dir(1, 0), Dir(-1, 0), Dir(0, 1), Dir(0, -1)]

  /** The order in which `cellsDirs` lists the offsets it keeps. */
  const DirsOrder: seq<Dir> := [Dir(-1, 0), Dir(1, 0), Dir(0, -1), Dir(0, 1)]

  /** `cellsDirs(pos, size)`: the unit offsets that keep `pos` inside the
      `width` by `height` grid, in the order `[-1,0]`, `[1,0]`, `[0,-1]`,
      `[0,1]`. From a position inside the grid each kept step lands inside
      it again, so taking the coordinates mod the side changes nothing. */
  function CellsDirs(p: Pos, width: int, height: int): (r: seq<Dir>)
    ensures Subseq(r, DirsOrder) && Distinct(r)
    ensures 0 <= p.x < width && 0 <= p.y < height ==>
      forall d :: d in r <==> d in Directions && 0 <= p.x + d.dx < width && 0 <= p.y + d.dy < height
  {
    var r := (if p.x > 0 then [Dir(-1, 0)] else []) + (if p.x < width - 1 then [Dir(1, 0)] else [])
      + (if p.y > 0 then [Dir(0, -1)] else []) + (if p.y < height - 1 then [Dir(0, 1)] else []);
    KeptInOrder(p.x > 0, p.x < width - 1, p.y > 0, p.y < height - 1);
    InBoundsSteps(p, width, height, r);
    r
  }

  /** From a position inside the grid no kept offset wraps around. */
  lemma CellsDirsNoWrap(p: Pos, width: int, height: int)
    requires 0 <= p.x < width && 0 <= p.y < height
    ensures forall d :: d in CellsDirs(p, width, height) ==>
      (p.x + d.dx) % width == p.x + d.dx && (p.y + d.dy) % height == p.y + d.dy
  {
    var r := (if p.x > 0 then [Dir(-1, 0)] else []) + (if p.x < width - 1 then [Dir(1, 0)] else [])
      + (if p.y > 0 then [Dir(0, -1)] else []) + (if p.y < height - 1 then [Dir(0, 1)] else []);
    InBoundsSteps(p, width, height, r);
  }

  /** A kept offset moves to another cell without wrapping around. */
  lemma CellsDirsMove(p: Pos, n: nat, d: Dir)
    requires 0 < n && OnGrid(p, n) && d in CellsDirs(p, n, n)
    ensures Neighbour(p, d, n) == Pos(p.x + d.dx, p.y + d.dy) && Neighbour(p, d, n) != p
  {
    CellsDirsSteps(p, n, d);
    UnitMoves(d);
    StepInGrid(p, n, d);
  }

  lemma CellsDirsSteps(p: Pos, n: nat, d: Dir)
    requires 0 < n && OnGrid(p, n) && d in CellsDirs(p, n, n)
    ensures d in Directions && 0 <= p.x + d.dx < n && 0 <= p.y + d.dy < n
  {
  }

  lemma UnitMoves(d: Dir)
    requires d in Directions
    ensures d.dx != 0 || d.dy != 0
  {
  }

  /** A step that stays inside the grid does not wrap. */
  lemma StepInGrid(p: Pos, n: nat, d: Dir)
    requires 0 < n && 0 <= p.x + d.dx < n && 0 <= p.y + d.dy < n
    ensures Neighbour(p, d, n) == Pos(p.x + d.dx, p.y + d.dy)
  {
    ModBelow(p.x + d.dx, n);
    ModBelow(p.y + d.dy, n);
  }

  /** The offsets kept from a position inside the grid are the unit steps
      that stay inside it, and none of them wraps. */
  lemma InBoundsSteps(p: Pos, width: int, height: int, r: seq<Dir>)
    requires r == (if p.x > 0 then [Dir(-1, 0)] else []) + (if p.x < width - 1 then [Dir(1, 0)] else [])
      + (if p.y > 0 then [Dir(0, -1)] else []) + (if p.y < height - 1 then [Dir(0, 1)] else [])
    ensures 0 <= p.x < width && 0 <= p.y < height ==>
      forall d :: d in r <==> d in Directions && 0 <= p.x + d.dx < width && 0 <= p.y + d.dy < height
    ensures 0 <= p.x < width && 0 <= p.y < height ==>
      forall d :: d in r ==> (p.x + d.dx) % width == p.x + d.dx && (p.y + d.dy) % height == p.y + d.dy
  {
    if 0 <= p.x < width && 0 <= p.y < height {
      forall d | d in r ensures (p.x + d.dx) % width == p.x + d.dx && (p.y + d.dy) % height == p.y + d.dy {
        assert 0 <= p.x + d.dx < width && 0 <= p.y + d.dy < height;
        ModBelow(p.x + d.dx, width);
        ModBelow(p.y + d.dy, height);
      }
    }
  }

  lemma ModBelow(v: int, m: int)
    requires 0 <= v < m
    ensures v % m == v
  {
  }

  /** Keeping any of the four offsets, in order, gives a sub-list of
      `DirsOrder`. */
  lemma KeptInOrder(a: bool, b: bool, c: bool, d: bool)
    ensures var r := (if a then [Dir(-1, 0)] else []) + (if b then [Dir(1, 0)] else [])
      + (if c then [Dir(0, -1)] else []) + (if d then [Dir(0, 1)] else []);
      Subseq(r, DirsOrder) && Distinct(r)
  {
    var r1 := (if a then [Dir(-1, 0)] else []);
    assert Subseq(r1, DirsOrder[..1]) by {
      assert DirsOrder[..0] + [DirsOrder[0]] == DirsOrder[..1];
      assert [] + r1 == r1;
      SubseqKeep([], DirsOrder[..0], a, DirsOrder[0]);
    }
    var r2 := r1 + (if b then [Dir(1, 0)] else []);
    assert Subseq(r2, DirsOrder[..2]) by {
      assert DirsOrder[..1] + [DirsOrder[1]] == DirsOrder[..2];
      SubseqKeep(r1, DirsOrder[..1], b, DirsOrder[1]);
    }
    var r3 := r2 + (if c then [Dir(0, -1)] else []);
    assert Subseq(r3, DirsOrder[..3]) by {
      assert DirsOrder[..2] + [DirsOrder[2]] == DirsOrder[..3];
      SubseqKeep(r2, DirsOrder[..2], c, DirsOrder[2]);
    }
    var r := r3 + (if d then [Dir(0, 1)] else []);
    assert Subseq(r, DirsOrder) by {
      assert DirsOrder[..3] + [DirsOrder[3]] == DirsOrder;
      SubseqKeep(r3, DirsOrder[..3], d, DirsOrder[3]);
    }
    DirsOrderDistinct();
    SubseqDistinct(r, DirsOrder);
  }

  lemma DirsOrderDistinct()
    ensures Distinct(DirsOrder)
  {
  }

  /** The cell at `p` exists. */
  predicate InGrid<K>(g: seq<seq<seq<K>>>, p: Pos) {
    0 <= p.x < |g| && 0 <= p.y < |g[p.x]|
  }

  /** `p` is a position of an `n` by `n` grid. */
  predicate OnGrid(p: Pos, n: nat) {
    0 <= p.x < n && 0 <= p.y < n
  }

  /** The neighbour both solvers revise: `(pos + dir) mod len(cells)` on
      both axes, so the grid is read as a torus. */
  function Neighbour(pos: Pos, d: Dir, n: nat): (q: Pos)
    requires 0 < n
    ensures OnGrid(q, n)
  {
    Pos((pos.x + d.dx) % n, (pos.y + d.dy) % n)
  }

  /** A negative index counted from the end has the same neighbours as the
      position it stands for. */
  lemma NeighbourWrap(pos: Pos, d: Dir, n: nat)
    requires 0 < n && 0 <= pos.x + n && pos.x < n && 0 <= pos.y + n && pos.y < n && d in Directions
    ensures Neighbour(Pos(PyIndex(pos.x, n), PyIndex(pos.y, n)), d, n) == Neighbour(pos, d, n)
  {
    if pos.x < 0 {
      ModShift(pos.x + d.dx, n);
    }
    if pos.y < 0 {
      ModShift(pos.y + d.dy, n);
    }
  }

  /** Adding the modulus does not change the remainder. */
  lemma ModShift(v: int, n: nat)
    requires 0 < n && -2 * n <= v < n
    ensures (v + n) % n == v % n
  {
    if v + n < 0 {
      ModTwiceNegative(v, n);
      ModNegative(v + n, n);
    } else if v < 0 {
      ModNegative(v, n);
      ModBelow(v + n, n);
    } else {
      ModBelow(v, n);
      ModAboveOnce(v + n, n);
    }
  }

  lemma ModAboveOnce(v: int, n: int)
    requires 0 < n && n <= v < 2 * n
    ensures v % n == v - n
  {
  }

  lemma ModNegative(v: int, n: int)
    requires 0 < n && -n <= v < 0
    ensures v % n == v + n
  {
  }

  lemma ModTwiceNegative(v: int, n: int)
    requires 0 < n && -2 * n <= v < -n
    ensures v % n == v + 2 * n
  {
  }

  /** `n` rows of `n` cells each. */
  ghost predicate Square<K>(g: seq<seq<seq<K>>>, n: nat) {
    |g| == n && forall x :: 0 <= x < n ==> |g[x]| == n
  }

  /** `g` with the cell at `p` replaced by `c`. */
  function SetCell<K>(g: seq<seq<seq<K>>>, p: Pos, c: seq<K>): (r: seq<seq<seq<K>>>)
    requires InGrid(g, p)
    ensures |r| == |g| && forall x :: 0 <= x < |g| ==> |r[x]| == |g[x]|
  {
    g[p.x := g[p.x][p.y := c]]
  }

  /** `initCells` / `initializeCells`: an `n` by `n` grid whose every cell
      lists all the keys. */
  function InitialGrid<K>(keys: seq<K>, n: nat): (g: seq<seq<seq<K>>>)
    ensures Square(g, n)
    ensures forall x, y :: 0 <= x < n && 0 <= y < n ==> g[x][y] == keys
  {
    seq(n, _ => seq(n, _ => keys))
  }

  /** `hasError`: some cell has no candidate left. */
  ghost predicate HasError<K>(g: seq<seq<seq<K>>>) {
    exists x, y :: 0 <= x < |g| && 0 <= y < |g[x]| && g[x][y] == []
  }

  /** `hasFinished`: no cell has more than one candidate. */
  ghost predicate HasFinished<K>(g: seq<seq<seq<K>>>) {
    forall x, y :: 0 <= x < |g| && 0 <= y < |g[x]| ==> |g[x][y]| <= 1
  }

  /** Every cell holds exactly one candidate. */
  ghost predicate Decided<K>(g: seq<seq<seq<K>>>) {
    forall x, y :: 0 <= x < |g| && 0 <= y < |g[x]| ==> |g[x][y]| == 1
  }

  /** Every cell is an order-preserving sub-list of the key list. */
  ghost predicate WithinKeys2D<K>(g: seq<seq<seq<K>>>, keys: seq<K>) {
    forall x, y :: 0 <= x < |g| && 0 <= y < |g[x]| ==> Subseq(g[x][y], keys)
  }

  /** `g1` has the shape of `g0` and each of its cells is a sub-list of the
      cell of `g0` at the same place: domains only shrank. */
  ghost predicate Shrunk<K>(g0: seq<seq<seq<K>>>, g1: seq<seq<seq<K>>>) {
    && |g1| == |g0|
    && (forall x :: 0 <= x < |g0| ==> |g1[x]| == |g0[x]|)
    && (forall x, y :: 0 <= x < |g0| && 0 <= y < |g0[x]| ==> Subseq(g1[x][y], g0[x][y]))
  }

  /** The initial grid lies within the keys, has no empty cell when there is
      a key, and has only empty cells when there is none. */
  lemma InitialGridSpec<K>(keys: seq<K>, n: nat)
    ensures WithinKeys2D(InitialGrid(keys, n), keys)
    ensures keys != [] ==> !HasError(InitialGrid(keys, n))
    ensures keys == [] && n > 0 ==> HasError(InitialGrid(keys, n))
  {
    var g := InitialGrid(keys, n);
    SubseqRefl(keys);
    if keys == [] && n > 0 {
      assert g[0][0] == [];
    }
  }

  /** A finished grid without an empty cell is decided. */
  lemma FinishedDecided<K>(g: seq<seq<seq<K>>>)
    requires HasFinished(g) && !HasError(g)
    ensures Decided(g)
  {
    forall x, y | 0 <= x < |g| && 0 <= y < |g[x]| ensures |g[x][y]| == 1 {
      assert |g[x][y]| <= 1;
      assert g[x][y] != [];
    }
  }

  lemma ShrunkRefl<K>(g: seq<seq<seq<K>>>)
    ensures Shrunk(g, g)
  {
    forall x, y | 0 <= x < |g| && 0 <= y < |g[x]| ensures Subseq(g[x][y], g[x][y]) {
      SubseqRefl(g[x][y]);
    }
  }

  lemma ShrunkTrans<K>(g0: seq<seq<seq<K>>>, g1: seq<seq<seq<K>>>, g2: seq<seq<seq<K>>>)
    requires Shrunk(g0, g1) && Shrunk(g1, g2)
    ensures Shrunk(g0, g2)
  {
    forall x, y | 0 <= x < |g0| && 0 <= y < |g0[x]| ensures Subseq(g2[x][y], g0[x][y]) {
      SubseqTrans(g2[x][y], g1[x][y], g0[x][y]);
    }
  }

  /** Replacing one cell by a sub-list of itself shrinks the grid. */
  lemma ShrunkSet<K>(g: seq<seq<seq<K>>>, p: Pos, c: seq<K>)
    requires InGrid(g, p) && Subseq(c, g[p.x][p.y])
    ensures Shrunk(g, SetCell(g, p, c))
  {
    var r := SetCell(g, p, c);
    forall x, y | 0 <= x < |g| && 0 <= y < |g[x]| ensures Subseq(r[x][y], g[x][y]) {
      if x != p.x || y != p.y {
        SubseqRefl(g[x][y]);
      }
    }
  }

  /** Shrinking keeps a grid within the keys. */
  lemma ShrunkWithin<K>(g0: seq<seq<seq<K>>>, g1: seq<seq<seq<K>>>, keys: seq<K>)
    requires Shrunk(g0, g1) && WithinKeys2D(g0, keys)
    ensures WithinKeys2D(g1, keys)
  {
    forall x, y | 0 <= x < |g1| && 0 <= y < |g1[x]| ensures Subseq(g1[x][y], keys) {
      SubseqTrans(g1[x][y], g0[x][y], keys);
    }
  }

  /** The number of candidates in a row. */
  function RowSize<K>(row: seq<seq<K>>): nat
    decreases |row|
  {
    if row == [] then 0 else RowSize(row[..|row| - 1]) + |row[|row| - 1]|
  }

  /** The number of candidates in the whole grid: what propagation lowers. */
  function GridSize<K>(g: seq<seq<seq<K>>>): nat
    decreases |g|
  {
    if g == [] then 0 else GridSize(g[..|g| - 1]) + RowSize(g[|g| - 1])
  }

  lemma {:induction false} RowSizeUpdate<K>(row: seq<seq<K>>, y: nat, c: seq<K>)
    requires y < |row|
    ensures RowSize(row[y := c]) == RowSize(row) - |row[y]| + |c|
    decreases |row|
  {
    var last := |row| - 1;
    if y < last {
      RowSizeUpdate(row[..last], y, c);
      assert row[y := c][..last] == row[..last][y := c];
    } else {
      assert row[y := c][..last] == row[..last];
    }
  }

  lemma {:induction false} GridSizeRow<K>(g: seq<seq<seq<K>>>, x: nat, row: seq<seq<K>>)
    requires x < |g|
    ensures GridSize(g[x := row]) == GridSize(g) - RowSize(g[x]) + RowSize(row)
    decreases |g|
  {
    var last := |g| - 1;
    if x < last {
      GridSizeRow(g[..last], x, row);
      assert g[x := row][..last] == g[..last][x := row];
    } else {
      assert g[x := row][..last] == g[..last];
    }
  }

  /** Replacing one cell changes the size of the grid by the difference. */
  lemma GridSizeUpdate<K>(g: seq<seq<seq<K>>>, p: Pos, c: seq<K>)
    requires InGrid(g, p)
    ensures GridSize(SetCell(g, p, c)) == GridSize(g) - |g[p.x][p.y]| + |c|
  {
    RowSizeUpdate(g[p.x], p.y, c);
    GridSizeRow(g, p.x, g[p.x][p.y := c]);
  }

  lemma {:induction false} RowShrunkSize<K>(r0: seq<seq<K>>, r1: seq<seq<K>>)
    requires |r1| == |r0| && forall y :: 0 <= y < |r0| ==> Subseq(r1[y], r0[y])
    ensures RowSize(r1) <= RowSize(r0)
    ensures RowSize(r1) == RowSize(r0) ==> r1 == r0
    decreases |r0|
  {
    if r0 != [] {
      var last := |r0| - 1;
      RowShrunkSize(r0[..last], r1[..last]);
      SubseqBounds(r1[last], r0[last]);
      if RowSize(r1) == RowSize(r0) {
        SubseqSameLength(r1[last], r0[last]);
        assert r1 == r1[..last] + [r1[last]];
        assert r0 == r0[..last] + [r0[last]];
      }
    }
  }

  /** A shrunk grid holds no more candidates, and as many only when nothing
      shrank. */
  lemma {:induction false} ShrunkSize<K>(g0: seq<seq<seq<K>>>, g1: seq<seq<seq<K>>>)
    requires Shrunk(g0, g1)
    ensures GridSize(g1) <= GridSize(g0)
    ensures GridSize(g1) == GridSize(g0) ==> g1 == g0
    decreases |g0|
  {
    if g0 != [] {
      var last := |g0| - 1;
      assert Shrunk(g0[..last], g1[..last]);
      ShrunkSize(g0[..last], g1[..last]);
      RowShrunkSize(g0[last], g1[last]);
      if GridSize(g1) == GridSize(g0) {
        assert g1 == g1[..last] + [g1[last]];
        assert g0 == g0[..last] + [g0[last]];
      }
    }
  }

  /** Row-major order: cell `(x, y)` is scanned before position `(ux, uy)`. */
  predicate Before(x: int, y: int, ux: int, uy: int) {
    x < ux || (x == ux && y < uy)
  }

  /** `m` is what the scan of the newer `observe` holds once it has looked
      at every cell before `(ux, uy)`: among the cells with more than one
      candidate, the row-major first one of strictly smallest size below
      `bound`; `None` when no such cell is below `bound`. */
  ghost predicate IsFirstMin2D<K>(g: seq<seq<seq<K>>>, bound: nat, ux: int, uy: int, m: Option<Pos>) {
    match m
    case None =>
      forall x, y :: 0 <= x < |g| && 0 <= y < |g[x]| && Before(x, y, ux, uy) && 1 < |g[x][y]| ==> bound <= |g[x][y]|
    case Some(p) =>
      && InGrid(g, p) && Before(p.x, p.y, ux, uy) && 1 < |g[p.x][p.y]| < bound
      && (forall x, y :: 0 <= x < |g| && 0 <= y < |g[x]| && Before(x, y, ux, uy) && 1 < |g[x][y]| ==>
            |g[p.x][p.y]| <= |g[x][y]|)
      && (forall x, y :: 0 <= x < |g| && 0 <= y < |g[x]| && Before(x, y, p.x, p.y) && 1 < |g[x][y]| ==>
            |g[p.x][p.y]| < |g[x][y]|)
  }

  /** `m` is what the scan of the older `observe` holds once it has looked at
      every cell before `(ux, uy)`: among the cells with more than one
      candidate, the row-major last one of smallest size, at most `bound`;
      `None` when no such cell is at most `bound`. */
  ghost predicate IsLastMin2D<K>(g: seq<seq<seq<K>>>, bound: nat, ux: int, uy: int, m: Option<Pos>) {
    match m
    case None =>
      forall x, y :: 0 <= x < |g| && 0 <= y < |g[x]| && Before(x, y, ux, uy) && 1 < |g[x][y]| ==> bound < |g[x][y]|
    case Some(p) =>
      && InGrid(g, p) && Before(p.x, p.y, ux, uy) && 1 < |g[p.x][p.y]| <= bound
      && (forall x, y :: 0 <= x < |g| && 0 <= y < |g[x]| && Before(x, y, ux, uy) && 1 < |g[x][y]| ==>
            |g[p.x][p.y]| <= |g[x][y]|)
      && (forall x, y ::
            (0 <= x < |g| && 0 <= y < |g[x]| && Before(x, y, ux, uy) && Before(p.x, p.y, x, y) && 1 < |g[x][y]|) ==>
            |g[p.x][p.y]| < |g[x][y]|)
  }

  /** Looking at cell `(x, y)` extends the newer scan by one position. */
  lemma FirstMinStep<K>(g: seq<seq<seq<K>>>, bound: nat, x: int, y: int, m: Option<Pos>)
    requires 0 <= x < |g| && 0 <= y < |g[x]| && IsFirstMin2D(g, bound, x, y, m)
    ensures var min := if m.None? then bound else |g[m.value.x][m.value.y]|;
      IsFirstMin2D(g, bound, x, y + 1, if 1 < |g[x][y]| && |g[x][y]| < min then Some(Pos(x, y)) else m)
  {
  }

  /** A whole row scanned is the start of the next one. */
  lemma FirstMinRow<K>(g: seq<seq<seq<K>>>, bound: nat, x: int, m: Option<Pos>)
    requires 0 <= x < |g| && IsFirstMin2D(g, bound, x, |g[x]|, m)
    ensures IsFirstMin2D(g, bound, x + 1, 0, m)
  {
  }

  /** Looking at cell `(x, y)` extends the older scan by one position. */
  lemma LastMinStep<K>(g: seq<seq<seq<K>>>, bound: nat, x: int, y: int, m: Option<Pos>)
    requires 0 <= x < |g| && 0 <= y < |g[x]| && IsLastMin2D(g, bound, x, y, m)
    ensures var min := if m.None? then bound else |g[m.value.x][m.value.y]|;
      IsLastMin2D(g, bound, x, y + 1, if 1 < |g[x][y]| && |g[x][y]| <= min then Some(Pos(x, y)) else m)
  {
  }

  /** A whole row scanned is the start of the next one. */
  lemma LastMinRow<K>(g: seq<seq<seq<K>>>, bound: nat, x: int, m: Option<Pos>)
    requires 0 <= x < |g| && IsLastMin2D(g, bound, x, |g[x]|, m)
    ensures IsLastMin2D(g, bound, x + 1, 0, m)
  {
  }

  /** The scan loops of the newer `observe`: starting from `min = bound`,
      keep each cell with more than one candidate that is strictly smaller
      than the best so far. */
  method ScanFirstMin2D<K>(g: seq<seq<seq<K>>>, bound: nat) returns (m: Option<Pos>)
    ensures IsFirstMin2D(g, bound, |g|, 0, m)
  {
    var min := bound;
    m := None;
    var idrow := 0;
    while idrow < |g|
      invariant idrow <= |g|
      invariant IsFirstMin2D(g, bound, idrow, 0, m)
      invariant min == if m.None? then bound else |g[m.value.x][m.value.y]|
    {
      m, min := ScanFirstRow(g, bound, idrow, m, min);
      idrow := idrow + 1;
    }
  }

  /** The inner loop of ScanFirstMin2D, over row `idrow`. */
  method ScanFirstRow<K>(g: seq<seq<seq<K>>>, bound: nat, idrow: int, m0: Option<Pos>, min0: nat)
    returns (m: Option<Pos>, min: nat)
    requires 0 <= idrow < |g| && IsFirstMin2D(g, bound, idrow, 0, m0)
    requires min0 == if m0.None? then bound else |g[m0.value.x][m0.value.y]|
    ensures IsFirstMin2D(g, bound, idrow + 1, 0, m)
    ensures min == if m.None? then bound else |g[m.value.x][m.value.y]|
  {
    m, min := m0, min0;
    var id := 0;
    while id < |g[idrow]|
      invariant id <= |g[idrow]|
      invariant IsFirstMin2D(g, bound, idrow, id, m)
      invariant min == if m.None? then bound else |g[m.value.x][m.value.y]|
    {
      FirstMinStep(g, bound, idrow, id, m);
      var j := g[idrow][id];
      if |j| > 1 {
        if |j| < min {
          m := Some(Pos(idrow, id));
          min := |j|;
        }
      }
      id := id + 1;
    }
    FirstMinRow(g, bound, idrow, m);
  }

  /** The scan loops of the older `observe`: starting from `min = bound`,
      keep each cell with more than one candidate that is no larger than the
      best so far. */
  method ScanLastMin2D<K>(g: seq<seq<seq<K>>>, bound: nat) returns (m: Option<Pos>)
    ensures IsLastMin2D(g, bound, |g|, 0, m)
  {
    var min := bound;
    m := None;
    var idrow := 0;
    while idrow < |g|
      invariant idrow <= |g|
      invariant IsLastMin2D(g, bound, idrow, 0, m)
      invariant min == if m.None? then bound else |g[m.value.x][m.value.y]|
    {
      m, min := ScanLastRow(g, bound, idrow, m, min);
      idrow := idrow + 1;
    }
  }

  /** The inner loop of ScanLastMin2D, over row `idrow`. */
  method ScanLastRow<K>(g: seq<seq<seq<K>>>, bound: nat, idrow: int, m0: Option<Pos>, min0: nat)
    returns (m: Option<Pos>, min: nat)
    requires 0 <= idrow < |g| && IsLastMin2D(g, bound, idrow, 0, m0)
    requires min0 == if m0.None? then bound else |g[m0.value.x][m0.value.y]|
    ensures IsLastMin2D(g, bound, idrow + 1, 0, m)
    ensures min == if m.None? then bound else |g[m.value.x][m.value.y]|
  {
    m, min := m0, min0;
    var id := 0;
    while id < |g[idrow]|
      invariant id <= |g[idrow]|
      invariant IsLastMin2D(g, bound, idrow, id, m)
      invariant min == if m.None? then bound else |g[m.value.x][m.value.y]|
    {
      LastMinStep(g, bound, idrow, id, m);
      var j := g[idrow][id];
      if |j| > 1 {
        if |j| <= min {
          m := Some(Pos(idrow, id));
          min := |j|;
        }
      }
      id := id + 1;
    }
    LastMinRow(g, bound, idrow, m);
  }

  /** Starting from the bound `len(patterns) + 1` over a grid within the
      keys, the newer scan finds nothing exactly when the grid is finished. */
  lemma FirstMinFinds<K>(g: seq<seq<seq<K>>>, keys: seq<K>, m: Option<Pos>)
    requires WithinKeys2D(g, keys) && IsFirstMin2D(g, |keys| + 1, |g|, 0, m)
    ensures m.None? <==> HasFinished(g)
  {
    if m.None? {
      forall x, y | 0 <= x < |g| && 0 <= y < |g[x]| ensures |g[x][y]| <= 1 {
        SubseqBounds(g[x][y], keys);
      }
    }
  }

  /** Starting from the bound `len(patterns) + 1` over a grid within the
      keys, the older scan finds nothing exactly when the grid is finished. */
  lemma LastMinFinds<K>(g: seq<seq<seq<K>>>, keys: seq<K>, m: Option<Pos>)
    requires WithinKeys2D(g, keys) && IsLastMin2D(g, |keys| + 1, |g|, 0, m)
    ensures m.None? <==> HasFinished(g)
  {
    if m.None? {
      forall x, y | 0 <= x < |g| && 0 <= y < |g[x]| ensures |g[x][y]| <= 1 {
        SubseqBounds(g[x][y], keys);
      }
    }
  }
}
