/** The older 2-D generator, `wfc2d-old.py`: free functions over a grid of
    candidate lists that they change in place, here a two-dimensional
    array of lists, with the catalog read directly in `validate`. */
module Wfc2DOld {
  import opened Lists
  import opened Grid2D
  import opened Patterns2D
  import opened Wave2D

  /** How `WFC` ends: `hasFinished` held after a round without error (the
      final grid is kept); `observe` raised, which the `except` clause
      catches and ends the run; or the supplied random draws ran out. */
  datatype Run = Finished(grid: seq<seq<seq<Image>>>) | Crashed | OutOfDraws

  /** The grid held by the array. */
  function Contents(a: array2<seq<Image>>): (g: seq<seq<seq<Image>>>)
    reads a
    ensures |g| == a.Length0 && forall x :: 0 <= x < |g| ==> |g[x]| == a.Length1
    ensures forall x, y :: 0 <= x < a.Length0 && 0 <= y < a.Length1 ==> g[x][y] == a[x, y]
  {
    seq(a.Length0, x requires 0 <= x < a.Length0 reads a =>
      seq(a.Length1, y requires 0 <= y < a.Length1 reads a => a[x, y]))
  }

  /** `cells[x][y] = c`. */
  method Put(cells: array2<seq<Image>>, p: Pos, c: seq<Image>)
    requires 0 <= p.x < cells.Length0 && 0 <= p.y < cells.Length1
    modifies cells
    ensures Contents(cells) == SetCell(old(Contents(cells)), p, c)
  {
    ghost var g := Contents(cells);
    cells[p.x, p.y] := c;
    ghost var r := SetCell(g, p, c);
    assert forall x :: 0 <= x < cells.Length0 ==> Contents(cells)[x] == r[x];
  }

  /** `initializeCells(patterns, n)`: an `n` by `n` grid whose every cell is
      a fresh copy of the key list. */
  method InitializeCells(patterns: seq<Image>, n: nat) returns (cells: array2<seq<Image>>)
    ensures fresh(cells) && cells.Length0 == n && cells.Length1 == n
    ensures Contents(cells) == InitialGrid(patterns, n)
  {
    cells := new seq<Image>[n, n];
    var i := 0;
    while i < n
      invariant i <= n
      invariant forall x, y :: 0 <= x < i && 0 <= y < n ==> cells[x, y] == patterns
    {
      var j := 0;
      while j < n
        invariant j <= n
        invariant forall x, y :: 0 <= x < i && 0 <= y < n ==> cells[x, y] == patterns
        invariant forall y :: 0 <= y < j ==> cells[i, y] == patterns
      {
        var cell: seq<Image> := [];
        var t := 0;
        while t < |patterns|
          invariant t <= |patterns|
          invariant cell == patterns[..t]
        {
          cell := cell + [patterns[t]];
          t := t + 1;
        }
        assert cell == patterns;
        cells[i, j] := cell;
        j := j + 1;
      }
      i := i + 1;
    }
    assert Contents(cells) == InitialGrid(patterns, n) by {
      assert forall x :: 0 <= x < n ==> Contents(cells)[x] == InitialGrid(patterns, n)[x];
    }
  }

  /** `copy.deepcopy(cells)`: a new grid with the same lists. */
  method Copy(cells: array2<seq<Image>>) returns (dup: array2<seq<Image>>)
    ensures fresh(dup) && dup.Length0 == cells.Length0 && dup.Length1 == cells.Length1
    ensures Contents(dup) == Contents(cells)
  {
    dup := new seq<Image>[cells.Length0, cells.Length1];
    var i := 0;
    while i < cells.Length0
      invariant i <= cells.Length0
      invariant forall x, y :: 0 <= x < i && 0 <= y < cells.Length1 ==> dup[x, y] == cells[x, y]
    {
      var j := 0;
      while j < cells.Length1
        invariant j <= cells.Length1
        invariant forall x, y :: 0 <= x < i && 0 <= y < cells.Length1 ==> dup[x, y] == cells[x, y]
        invariant forall y :: 0 <= y < j ==> dup[i, y] == cells[i, y]
      {
        dup[i, j] := cells[i, j];
        j := j + 1;
      }
      i := i + 1;
    }
    assert forall x :: 0 <= x < cells.Length0 ==> Contents(dup)[x] == Contents(cells)[x];
  }

  /** `hasFinished(cells)`. */
  method ScanFinished(cells: array2<seq<Image>>) returns (b: bool)
    ensures b <==> HasFinished(Contents(cells))
  {
    var idrow := 0;
    while idrow < cells.Length0
      invariant idrow <= cells.Length0
      invariant forall x, y :: 0 <= x < idrow && 0 <= y < cells.Length1 ==> |cells[x, y]| <= 1
    {
      var id := 0;
      while id < cells.Length1
        invariant id <= cells.Length1
        invariant forall y :: 0 <= y < id ==> |cells[idrow, y]| <= 1
      {
        if |cells[idrow, id]| > 1 {
          return false;
        }
        id := id + 1;
      }
      idrow := idrow + 1;
    }
    return true;
  }

  /** `hasError(cells)`. */
  method ScanError(cells: array2<seq<Image>>) returns (b: bool)
    ensures b <==> HasError(Contents(cells))
  {
    var idrow := 0;
    while idrow < cells.Length0
      invariant idrow <= cells.Length0
      invariant forall x, y :: 0 <= x < idrow && 0 <= y < cells.Length1 ==> cells[x, y] != []
    {
      var id := 0;
      while id < cells.Length1
        invariant id <= cells.Length1
        invariant forall y :: 0 <= y < id ==> cells[idrow, y] != []
      {
        if cells[idrow, id] == [] {
          return true;
        }
        id := id + 1;
      }
      idrow := idrow + 1;
    }
    return false;
  }

  /** `observe(patterns, cells, draw)`: the scan keeps the row-major last
      cell of smallest size (`<=`) among those with more than one
      candidate, starting from the bound `len(patterns) + 1`; with none it
      keeps the indices `-1, -1`. The cell found is collapsed to its
      candidate `draw mod size` and the indices are returned. `None` stands
      for the exception Python raises: `cells[-1]` of an empty grid, or
      `randint(0, -1)` on an empty last cell. */
  method Observe(patterns: seq<Image>, cells: array2<seq<Image>>, draw: nat) returns (pos: Option<Pos>)
    requires WithinKeys2D(Contents(cells), patterns)
    modifies cells
    ensures WithinKeys2D(Contents(cells), patterns)
    ensures !HasFinished(old(Contents(cells))) ==>
      pos.Some? && IsLastMin2D(old(Contents(cells)), |patterns| + 1, cells.Length0, 0, pos)
    ensures HasFinished(old(Contents(cells))) && pos.Some? ==> pos.value == Pos(-1, -1)
    ensures pos.None? <==>
      cells.Length0 == 0 || cells.Length1 == 0 ||
      (HasFinished(old(Contents(cells))) && old(cells[cells.Length0 - 1, cells.Length1 - 1]) == [])
    ensures pos.None? ==> Contents(cells) == old(Contents(cells))
    ensures pos.Some? ==>
      var g := old(Contents(cells));
      var at := Pos(PyIndex(pos.value.x, |g|), PyIndex(pos.value.y, cells.Length1));
      InGrid(g, at) && g[at.x][at.y] != [] &&
      Contents(cells) == SetCell(g, at, [g[at.x][at.y][draw % |g[at.x][at.y]|]])
  {
    var g := Contents(cells);
    var m := ScanLastMin2D(g, |patterns| + 1);
    LastMinFinds(g, patterns, m);
    var minidx, minidy := -1, -1;
    if m.Some? {
      minidx, minidy := m.value.x, m.value.y;
    }
    var ax, ay := PyIndex(minidx, cells.Length0), PyIndex(minidy, cells.Length1);
    if ax < 0 || ay < 0 || cells[ax, ay] == [] {
      pos := None;
      return;
    }
    var cell := cells[ax, ay];
    var x := cell[draw % |cell|];
    assert g[ax][ay] == cell;
    SubseqSingleton(x, cell);
    ShrunkSet(g, Pos(ax, ay), [x]);
    ShrunkWithin(g, SetCell(g, Pos(ax, ay), [x]), patterns);
    Put(cells, Pos(ax, ay), [x]);
    pos := Some(Pos(minidx, minidy));
  }

  /** `validate(patterns, cells[a], cells[b], dir)`: keeps each candidate
      `j` of `cellB` for which some `i` of `cellA` has every key of
      `patternsFromImages(patterns[j], patterns[i], dir)` in the catalog,
      once each, and reports whether the multiset of `cellB` changed. */
  method Validate(patterns: seq<Image>, cells: array2<seq<Image>>, a: Pos, b: Pos, d: Dir) returns (changed: bool)
    requires 0 <= a.x < cells.Length0 && 0 <= a.y < cells.Length1
    requires 0 <= b.x < cells.Length0 && 0 <= b.y < cells.Length1
    modifies cells
    ensures Contents(cells) == Revise(Tiled(patterns), old(Contents(cells)), a, b, d)
    ensures changed <==> multiset(cells[b.x, b.y]) != multiset(old(cells[b.x, b.y]))
    ensures changed <==> GridSize(Contents(cells)) < GridSize(old(Contents(cells)))
    ensures !changed ==> Contents(cells) == old(Contents(cells))
  {
    ghost var g := Contents(cells);
    var cellA, cellB := cells[a.x, a.y], cells[b.x, b.y];
    var newcell := ReviseCell(patterns, cellA, cellB, d);
    RevisedSpec2D(Tiled(patterns), cellA, cellB, d);
    ReviseShrinks(Tiled(patterns), g, a, b, d);
    changed := multiset(cellB) != multiset(newcell);
    Put(cells, b, newcell);
  }

  /** The double loop of `validate` building `newcell`; unlike the class,
      it tries every `i` of `cellA`, with no `break`. */
  method ReviseCell(patterns: seq<Image>, cellA: seq<Image>, cellB: seq<Image>, d: Dir) returns (newcell: seq<Image>)
    ensures newcell == Revised2D(Tiled(patterns), cellA, cellB, d)
  {
    ghost var ok := Support2D(Tiled(patterns), cellA, cellB, d);
    newcell := [];
    var jj := 0;
    while jj < |cellB|
      invariant jj <= |cellB|
      invariant newcell == Refine(cellB[..jj], ok)
    {
      var j := cellB[jj];
      newcell := KeepIfFits(patterns, cellA, j, d, newcell);
      assert j in cellB;
      if exists t :: 0 <= t < |cellA| && Fits(patterns, j, cellA[t], d) {
        var t :| 0 <= t < |cellA| && Fits(patterns, j, cellA[t], d);
        assert Allowed2D(Tiled(patterns), cellA[t], j, d);
      }
      assert cellB[..jj + 1][..jj] == cellB[..jj];
      jj := jj + 1;
    }
    assert cellB[..jj] == cellB;
  }

  /** The inner loop of `validate`: every `i` of `cellA` is tried, and `j`
      is appended the first time one fits, unless it is already listed. */
  method KeepIfFits(patterns: seq<Image>, cellA: seq<Image>, j: Image, d: Dir, before: seq<Image>)
    returns (newcell: seq<Image>)
    ensures newcell == if (exists t :: 0 <= t < |cellA| && Fits(patterns, j, cellA[t], d)) && j !in before
      then before + [j] else before
  {
    newcell := before;
    var ii := 0;
    while ii < |cellA|
      invariant ii <= |cellA|
      invariant newcell == if (exists t :: 0 <= t < ii && Fits(patterns, j, cellA[t], d)) && j !in before
        then before + [j] else before
    {
      var i := cellA[ii];
      var valok := WindowsKnown(patterns, j, i, d);
      if valok && j !in newcell {
        newcell := newcell + [j];
      }
      ii := ii + 1;
    }
  }

  /** `newpatterns = patternsFromImages(patterns[j], patterns[i], dir)` and
      the loop setting `valok`, which stops at the first key missing from
      the catalog. */
  method WindowsKnown(patterns: seq<Image>, j: Image, i: Image, d: Dir) returns (valok: bool)
    ensures valok <==> Fits(patterns, j, i, d)
  {
    var newpatterns := CreatePatternsFromImages(j, i, d);
    FitsKeys(patterns, j, i, d);
    valok := true;
    var t := 0;
    while t < |newpatterns|
      invariant t <= |newpatterns|
      invariant valok && forall s :: 0 <= s < t ==> newpatterns[s] in patterns
    {
      if newpatterns[t] !in patterns {
        valok := false;
        break;
      }
      t := t + 1;
    }
  }

  /** `propagate(patterns, cells, pos, dir)` on an `n` by `n` grid: revise
      the neighbour from a non-empty cell at `pos` (a negative index counts
      from the end, as for the `-1, -1` of `observe`); when that changed
      it, propagate from the neighbour in all four directions. Domains only
      shrink; nothing changes when the first revision removes nothing;
      otherwise the neighbour ends up within its revised list. Afterwards
      the arc from `pos` to its neighbour holds, every cell that changed
      is settled on the torus, and the change is a pruning: it keeps every
      consistent sub-grid of the grid it started from. */
  method Propagate(patterns: seq<Image>, cells: array2<seq<Image>>, pos: Pos, d: Dir)
    requires cells.Length0 == cells.Length1 > 0 && d in Directions
    requires -cells.Length0 <= pos.x < cells.Length0 && -cells.Length0 <= pos.y < cells.Length0
    modifies cells
    ensures Shrunk(old(Contents(cells)), Contents(cells))
    ensures var g, n := old(Contents(cells)), cells.Length0;
      var at, q := Pos(PyIndex(pos.x, n), PyIndex(pos.y, n)), Neighbour(pos, d, n);
      g[at.x][at.y] != [] ==> Subseq(Contents(cells)[q.x][q.y], Revised2D(Tiled(patterns), g[at.x][at.y], g[q.x][q.y], d))
    ensures var g, n := old(Contents(cells)), cells.Length0;
      var at, q := Pos(PyIndex(pos.x, n), PyIndex(pos.y, n)), Neighbour(pos, d, n);
      g[at.x][at.y] == [] || |Revised2D(Tiled(patterns), g[at.x][at.y], g[q.x][q.y], d)| == |g[q.x][q.y]| ==>
        Contents(cells) == g
    ensures var n := cells.Length0;
      var at := Pos(PyIndex(pos.x, n), PyIndex(pos.y, n));
      ArcHolds(Tiled(patterns), Contents(cells), at, Neighbour(at, d, n), d)
    ensures SettledSince(Tiled(patterns), Torus, old(Contents(cells)), Contents(cells), cells.Length0)
    ensures Pruned(Tiled(patterns), Torus, old(Contents(cells)), Contents(cells), cells.Length0)
    decreases GridSize(Contents(cells))
  {
    ghost var g := Contents(cells);
    var n := cells.Length0;
    var next := Neighbour(pos, d, n);
    var at := Pos(PyIndex(pos.x, n), PyIndex(pos.y, n));
    NeighbourWrap(pos, d, n);
    var haschanged := false;
    if cells[at.x, at.y] != [] {
      haschanged := Validate(patterns, cells, at, next, d);
      ReviseShrinks(Tiled(patterns), g, at, next, d);
    } else {
      ShrunkRefl(g);
    }
    if haschanged {
      ghost var g1 := Contents(cells);
      PropagateAround(patterns, cells, next, g, g1);
      ShrunkTrans(g, g1, Contents(cells));
      ArcAfterPropagation(Tiled(patterns), g, g1, Contents(cells), at, next, d, n);
      RevisedThenPruned(Tiled(patterns), g, g1, Contents(cells), at, d, n);
    } else {
      if g[at.x][at.y] != [] {
        assert Contents(cells)[next.x][next.y] == g[next.x][next.y];
        ArcKept(Tiled(patterns), g, at, next, d);
      }
      PrunedRefl(Tiled(patterns), Torus, g, n);
    }
  }

  /** The four recursive calls of `propagate` from the changed neighbour
      `next`, to the right, left, below and above; afterwards `next` is
      settled on the torus, and so is every cell that changed. */
  method PropagateAround(patterns: seq<Image>, cells: array2<seq<Image>>, next: Pos, ghost g0: seq<seq<seq<Image>>>,
                         ghost g1: seq<seq<seq<Image>>>)
    requires cells.Length0 == cells.Length1 > 0 && OnGrid(next, cells.Length0)
    requires Shrunk(g0, g1) && Contents(cells) == g1 && GridSize(g1) < GridSize(g0)
    modifies cells
    ensures Shrunk(g1, Contents(cells))
    ensures Subseq(Contents(cells)[next.x][next.y], g1[next.x][next.y])
    ensures Settled(Tiled(patterns), Torus, Contents(cells), next, cells.Length0)
    ensures SettledSince(Tiled(patterns), Torus, g1, Contents(cells), cells.Length0)
    ensures Pruned(Tiled(patterns), Torus, g1, Contents(cells), cells.Length0)
    decreases GridSize(g0), 1
  {
    var rule, n := Tiled(patterns), cells.Length0;
    ShrunkRefl(g1);
    SubseqRefl(g1[next.x][next.y]);
    PropagateOn(patterns, cells, next, g0, g1, Dir(1, 0));
    ghost var c1 := Contents(cells);
    ArcsAlongStep(rule, g1, c1, next, [], Dir(1, 0), n);
    PropagateOn(patterns, cells, next, g0, g1, Dir(-1, 0));
    ghost var c2 := Contents(cells);
    ArcsAlongStep(rule, c1, c2, next, [] + [Dir(1, 0)], Dir(-1, 0), n);
    SettledSinceTrans(rule, Torus, g1, c1, c2, n);
    PrunedTrans(rule, Torus, g1, c1, c2, n);
    PropagateOn(patterns, cells, next, g0, g1, Dir(0, 1));
    ghost var c3 := Contents(cells);
    ArcsAlongStep(rule, c2, c3, next, [] + [Dir(1, 0)] + [Dir(-1, 0)], Dir(0, 1), n);
    SettledSinceTrans(rule, Torus, g1, c2, c3, n);
    PrunedTrans(rule, Torus, g1, c2, c3, n);
    PropagateOn(patterns, cells, next, g0, g1, Dir(0, -1));
    ArcsAlongStep(rule, c3, Contents(cells), next, [] + [Dir(1, 0)] + [Dir(-1, 0)] + [Dir(0, 1)], Dir(0, -1), n);
    SettledSinceTrans(rule, Torus, g1, c3, Contents(cells), n);
    PrunedTrans(rule, Torus, g1, c3, Contents(cells), n);
    ArcsAlongSettled(rule, Contents(cells), next, n);
  }

  /** One of the four recursive calls of `propagate`, from the changed
      neighbour `next`: the grid stays shrunk from `g0` and the neighbour
      stays within its list in `g1`, the grid right after the revision;
      the arc along `d` from `next` holds and every cell that changed is
      settled on the torus. */
  method PropagateOn(patterns: seq<Image>, cells: array2<seq<Image>>, next: Pos, ghost g0: seq<seq<seq<Image>>>,
                     ghost g1: seq<seq<seq<Image>>>, d: Dir)
    requires cells.Length0 == cells.Length1 > 0 && OnGrid(next, cells.Length0) && d in Directions
    requires Shrunk(g0, g1) && Shrunk(g1, Contents(cells)) && GridSize(g1) < GridSize(g0)
    requires Subseq(Contents(cells)[next.x][next.y], g1[next.x][next.y])
    modifies cells
    ensures Shrunk(g1, Contents(cells)) && Shrunk(old(Contents(cells)), Contents(cells))
    ensures Subseq(Contents(cells)[next.x][next.y], g1[next.x][next.y])
    ensures ArcHolds(Tiled(patterns), Contents(cells), next, Neighbour(next, d, cells.Length0), d)
    ensures SettledSince(Tiled(patterns), Torus, old(Contents(cells)), Contents(cells), cells.Length0)
    ensures Pruned(Tiled(patterns), Torus, old(Contents(cells)), Contents(cells), cells.Length0)
    decreases GridSize(g0), 0
  {
    ghost var c := Contents(cells);
    ShrunkSize(g1, c);
    Propagate(patterns, cells, next, d);
    ShrunkTrans(g1, c, Contents(cells));
    SubseqTrans(Contents(cells)[next.x][next.y], c[next.x][next.y], g1[next.x][next.y]);
  }

  /** With an empty catalog every cell is empty: the grid is finished and
      in error at once. */
  lemma EmptyCatalogGrid(g: seq<seq<seq<Image>>>)
    requires WithinKeys2D(g, [])
    ensures forall x, y :: 0 <= x < |g| && 0 <= y < |g[x]| ==> g[x][y] == []
    ensures HasFinished(g)
  {
    forall x, y | 0 <= x < |g| && 0 <= y < |g[x]| ensures g[x][y] == [] {
      SubseqBounds(g[x][y], []);
    }
  }

  /** The four calls of `propagate` from the observed position in `WFC`,
      to the right, left, below and above; afterwards that position is
      settled on the torus, and so is every cell that changed. */
  method PropagateFour(patterns: seq<Image>, cells: array2<seq<Image>>, pos: Pos)
    requires cells.Length0 == cells.Length1 > 0
    requires -cells.Length0 <= pos.x < cells.Length0 && -cells.Length0 <= pos.y < cells.Length0
    modifies cells
    ensures Shrunk(old(Contents(cells)), Contents(cells))
    ensures Settled(Tiled(patterns), Torus, Contents(cells),
                    Pos(PyIndex(pos.x, cells.Length0), PyIndex(pos.y, cells.Length0)), cells.Length0)
    ensures SettledSince(Tiled(patterns), Torus, old(Contents(cells)), Contents(cells), cells.Length0)
    ensures Pruned(Tiled(patterns), Torus, old(Contents(cells)), Contents(cells), cells.Length0)
  {
    var rule, n := Tiled(patterns), cells.Length0;
    ghost var at := Pos(PyIndex(pos.x, n), PyIndex(pos.y, n));
    ghost var g0 := Contents(cells);
    Propagate(patterns, cells, pos, Dir(1, 0));
    ghost var g1 := Contents(cells);
    ArcsAlongStep(rule, g0, g1, at, [], Dir(1, 0), n);
    Propagate(patterns, cells, pos, Dir(-1, 0));
    ShrunkTrans(g0, g1, Contents(cells));
    ghost var g2 := Contents(cells);
    ArcsAlongStep(rule, g1, g2, at, [] + [Dir(1, 0)], Dir(-1, 0), n);
    SettledSinceTrans(rule, Torus, g0, g1, g2, n);
    PrunedTrans(rule, Torus, g0, g1, g2, n);
    Propagate(patterns, cells, pos, Dir(0, 1));
    ShrunkTrans(g0, g2, Contents(cells));
    ghost var g3 := Contents(cells);
    ArcsAlongStep(rule, g2, g3, at, [] + [Dir(1, 0)] + [Dir(-1, 0)], Dir(0, 1), n);
    SettledSinceTrans(rule, Torus, g0, g2, g3, n);
    PrunedTrans(rule, Torus, g0, g2, g3, n);
    Propagate(patterns, cells, pos, Dir(0, -1));
    ShrunkTrans(g0, g3, Contents(cells));
    ArcsAlongStep(rule, g3, Contents(cells), at, [] + [Dir(1, 0)] + [Dir(-1, 0)] + [Dir(0, 1)], Dir(0, -1), n);
    SettledSinceTrans(rule, Torus, g0, g3, Contents(cells), n);
    PrunedTrans(rule, Torus, g0, g3, Contents(cells), n);
    ArcsAlongSettled(rule, Contents(cells), at, n);
  }

  /** One round of `WFC` up to the error test: `observe`, then the four
      calls of `propagate` from the observed position. With no empty cell
      (or an empty catalog), the round crashes exactly when the grid has
      no cell or the catalog is empty. Otherwise `pos` is what `observe`
      returned: the last cell of fewest candidates when the grid was not
      finished. That cell is collapsed to its candidate `draw mod size`,
      and propagation leaves it settled on the torus, together with every
      cell it changed. */
  method ObserveAndPropagate(pats: seq<Image>, cells: array2<seq<Image>>, draw: nat)
    returns (crashed: bool, pos: Option<Pos>)
    requires cells.Length0 == cells.Length1
    requires WithinKeys2D(Contents(cells), pats) && (pats != [] ==> !HasError(Contents(cells)))
    modifies cells
    ensures WithinKeys2D(Contents(cells), pats)
    ensures crashed <==> cells.Length0 == 0 || pats == []
    ensures !crashed && !HasFinished(old(Contents(cells))) ==>
      pos.Some? && IsLastMin2D(old(Contents(cells)), |pats| + 1, cells.Length0, 0, pos)
    ensures !crashed ==> pos.Some?
    ensures !crashed && pos.Some? ==>
      var g, n := old(Contents(cells)), cells.Length0;
      var at := Pos(PyIndex(pos.value.x, n), PyIndex(pos.value.y, n));
      InGrid(g, at) && g[at.x][at.y] != [] &&
      var c1 := SetCell(g, at, [g[at.x][at.y][draw % |g[at.x][at.y]|]]);
      && Shrunk(g, c1) && Shrunk(c1, Contents(cells))
      && Settled(Tiled(pats), Torus, Contents(cells), at, n)
      && SettledSince(Tiled(pats), Torus, c1, Contents(cells), n)
      && Pruned(Tiled(pats), Torus, c1, Contents(cells), n)
    ensures !crashed ==> Shrunk(old(Contents(cells)), Contents(cells))
    ensures !crashed ==> SettledSince(Tiled(pats), Torus, old(Contents(cells)), Contents(cells), cells.Length0)
  {
    var n := cells.Length0;
    if n > 0 {
      if pats == [] {
        EmptyCatalogGrid(Contents(cells));
      }
      assert cells[n - 1, n - 1] == Contents(cells)[n - 1][n - 1];
    }
    ghost var g := Contents(cells);
    pos := Observe(pats, cells, draw);
    if pos.None? {
      return true, pos;
    }
    ghost var at := Pos(PyIndex(pos.value.x, n), PyIndex(pos.value.y, n));
    ghost var c1 := Contents(cells);
    SubseqSingleton(g[at.x][at.y][draw % |g[at.x][at.y]|], g[at.x][at.y]);
    ShrunkSet(g, at, c1[at.x][at.y]);
    PropagateFour(pats, cells, pos.value);
    ShrunkWithin(c1, Contents(cells), pats);
    ShrunkTrans(g, c1, Contents(cells));
    SettledSinceSet(Tiled(pats), Torus, g, at, c1[at.x][at.y], Contents(cells), n);
    return false, pos;
  }

  /** `WFC(filename, n, outputCellCount)` on the source picture itself,
      with `draws[r]` standing for the `randint` of round `r`: catalog,
      initial grid, then rounds of snapshot, observe, propagate in the four
      directions, restore the snapshot on an empty cell, and stop once no
      cell has more than one candidate. `rounds` counts the rounds run;
      running out of draws means every draw was used. A finished grid has
      every pair of torus neighbours allowed by the adjacency rule. */
  method WFC(src: Image, n: nat, outputCellCount: nat, draws: seq<nat>)
    returns (run: Run, patterns: seq<Image>, ghost rounds: nat)
    ensures patterns == Catalog2D(src, n)
    ensures rounds <= |draws| && (run.OutOfDraws? ==> rounds == |draws|)
    ensures run.Finished? ==>
      Square(run.grid, outputCellCount) && WithinKeys2D(run.grid, patterns) && Decided(run.grid)
    ensures run.Finished? ==> AdjacencySound(Tiled(patterns), Torus, run.grid, outputCellCount)
    ensures run.Crashed? <==> |draws| > 0 && (outputCellCount == 0 || patterns == [])
  {
    var pats := CreatePatternsFromImage(src, n);
    patterns := pats;
    var cells := InitializeCells(pats, outputCellCount);
    InitialGridSpec(pats, outputCellCount);
    ghost var base := InitialGrid(pats, outputCellCount);
    var k := 0;  // the frame counter, which only names the saved frames
    var round := 0;
    while round < |draws|
      invariant round <= |draws|
      invariant fresh(cells) && cells.Length0 == cells.Length1 == outputCellCount
      invariant WithinKeys2D(Contents(cells), pats)
      invariant pats != [] ==> !HasError(Contents(cells))
      invariant round > 0 ==> outputCellCount > 0 && pats != []
      invariant SettledSince(Tiled(pats), Torus, base, Contents(cells), outputCellCount)
    {
      var cellscopy := Copy(cells);
      var draw := draws[round];
      round := round + 1;
      ghost var g := Contents(cells);
      var crashed, pos := ObserveAndPropagate(pats, cells, draw);
      if crashed {
        run := Crashed;
        rounds := round;
        return;
      }
      SettledSinceTrans(Tiled(pats), Torus, base, g, Contents(cells), outputCellCount);
      var err := ScanError(cells);
      if err {
        cells := Copy(cellscopy);
        continue;
      }
      k := k + 1;
      var done := ScanFinished(cells);
      if done {
        FinishedDecided(Contents(cells));
        run := Finished(Contents(cells));
        rounds := round;
        SoundWhenFinished(Tiled(pats), pats, Contents(cells),
                          Pos(PyIndex(pos.value.x, outputCellCount), PyIndex(pos.value.y, outputCellCount)), outputCellCount);
        return;
      }
    }
    run := OutOfDraws;
    rounds := round;
  }
}
