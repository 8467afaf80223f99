/** The class `WFC2D` of the newer 2-D generator: the catalog, the
    constraint triples and the grid of candidate lists are fields that the
    methods update in place. */
module Wfc2DTest {
  import opened Lists
  import opened Grid2D
  import opened Patterns2D
  import opened Wave2D

  /** How a run of `generate` ends: `__observe` found no cell left to
      decide; the supplied random draws ran out first; or the restart after
      `cellCount * cellCount * 2` rounds was needed once more than allowed. */
  datatype Outcome2D = Finished | OutOfDraws | OutOfRestarts

  /** The four tests of `__initConstrains` for one pair of keys, each
      `set(foundpatterns) <= set(self.patterns.keys())`. */
  method PairTests(keys: seq<Image>, i: Image, j: Image) returns (ts: seq<Triple>)
    ensures ts == PairTriples(keys, i, j)
  {
    ts := [];
    var dirs := Directions;
    var t := 0;
    while t < 4
      invariant t <= 4
      invariant ts == (if t > 0 && Fits(keys, i, j, dirs[0]) then [Triple(i, j, dirs[0])] else [])
        + (if t > 1 && Fits(keys, i, j, dirs[1]) then [Triple(i, j, dirs[1])] else [])
        + (if t > 2 && Fits(keys, i, j, dirs[2]) then [Triple(i, j, dirs[2])] else [])
        + (if t > 3 && Fits(keys, i, j, dirs[3]) then [Triple(i, j, dirs[3])] else [])
    {
      var d := dirs[t];
      var foundpatterns := CreatePatternsFromImages(i, j, d);
      FitsKeys(keys, i, j, d);
      if (set k | k in foundpatterns) <= (set k | k in keys) {
        ts := ts + [Triple(i, j, d)];
      }
      t := t + 1;
    }
  }

  /** The double loop of `__validate` building `newcell`. */
  method ReviseCell(constrains: seq<Triple>, cellA: seq<Image>, cellB: seq<Image>, d: Dir)
    returns (newcell: seq<Image>)
    ensures newcell == Revised2D(Listed(constrains), cellA, cellB, d)
  {
    ghost var ok := Support2D(Listed(constrains), cellA, cellB, d);
    newcell := [];
    var jj := 0;
    while jj < |cellB|
      invariant jj <= |cellB|
      invariant newcell == Refine(cellB[..jj], ok)
    {
      var j := cellB[jj];
      var found;
      found, newcell := KeepIfListed(constrains, cellA, j, d, newcell);
      assert j in cellB;
      assert found <==> j in ok;
      assert cellB[..jj + 1][..jj] == cellB[..jj];
      jj := jj + 1;
    }
    assert cellB[..jj] == cellB;
  }

  /** The inner loop of `__validate`: stop at the first `i` of `cellA` with
      `[i, j, dir]` listed, and append `j` then unless it is already in
      `newcell`. */
  method KeepIfListed(constrains: seq<Triple>, cellA: seq<Image>, j: Image, d: Dir, before: seq<Image>)
    returns (found: bool, newcell: seq<Image>)
    ensures found <==> exists i :: i in cellA && Allowed2D(Listed(constrains), i, j, d)
    ensures newcell == if found && j !in before then before + [j] else before
  {
    newcell := before;
    found := false;
    var ii := 0;
    while ii < |cellA|
      invariant ii <= |cellA| && !found && newcell == before
      invariant forall t :: 0 <= t < ii ==> Triple(cellA[t], j, d) !in constrains
    {
      if Triple(cellA[ii], j, d) in constrains {
        assert Allowed2D(Listed(constrains), cellA[ii], j, d);
        found := true;
        if j !in newcell {
          newcell := newcell + [j];
        }
        break;
      }
      ii := ii + 1;
    }
  }

  /** The inner loop of `__initConstrains` for one `keyi`. */
  method RowTests(keys: seq<Image>, i: Image) returns (row: seq<Triple>)
    ensures row == RowTriples(keys, i, keys)
  {
    row := [];
    var b := 0;
    while b < |keys|
      invariant b <= |keys|
      invariant row == RowTriples(keys, i, keys[..b])
    {
      var ts := PairTests(keys, i, keys[b]);
      assert row + ts == RowTriples(keys, i, keys[..b + 1]) by {
        RowTriplesSnoc(keys, i, keys, b);
      }
      row := row + ts;
      b := b + 1;
    }
    assert keys[..b] == keys;
  }

  /** What `__stackpropagate` keeps while its stack is not empty: `pos`
      and every cell changed since `c0` are settled unless they wait on the
      stack. */
  ghost predicate OffStackSettled(cs: seq<Triple>, c0: seq<seq<seq<Image>>>, g: seq<seq<seq<Image>>>, pos: Pos,
                                  stack: seq<Pos>, n: nat) {
    && Square(c0, n) && Square(g, n)
    && forall c :: OnGrid(c, n) && c !in stack && (c == pos || g[c.x][c.y] != c0[c.x][c.y]) ==>
         Settled(Listed(cs), Bounded, g, c, n)
  }

  /** One pass of the `__stackpropagate` loop keeps OffStackSettled: the
      popped cell is settled now, the cells that changed are pushed, and
      every other cell kept its list, so it stays settled. */
  lemma KeepSettled(cs: seq<Triple>, c0: seq<seq<seq<Image>>>, before: seq<seq<seq<Image>>>,
                    after: seq<seq<seq<Image>>>, pos: Pos, stack: seq<Pos>, changed: seq<Pos>, n: nat)
    requires OffStackSettled(cs, c0, before, pos, stack, n) && Square(after, n) && 0 < |stack|
    requires Shrunk(before, after) && Shrunk(c0, after)
    requires Settled(Listed(cs), Bounded, after, stack[|stack| - 1], n)
    requires forall c :: OnGrid(c, n) && after[c.x][c.y] != before[c.x][c.y] ==> c in changed
    ensures OffStackSettled(cs, c0, after, pos, stack[..|stack| - 1] + changed, n)
  {
    var rest, cp := stack[..|stack| - 1], stack[|stack| - 1];
    assert stack == rest + [cp];
    forall c | OnGrid(c, n) && c !in rest + changed && (c == pos || after[c.x][c.y] != c0[c.x][c.y])
      ensures Settled(Listed(cs), Bounded, after, c, n)
    {
      if c != cp {
        assert after[c.x][c.y] == before[c.x][c.y];
        assert c !in rest + [cp];
        SettledShrunk(Listed(cs), Bounded, before, after, c, n);
      }
    }
  }

  /** The arcs out of `cp` along the first `t` offsets of `dirs` hold. */
  ghost predicate ArcsOut(rule: Rule2D, g: seq<seq<seq<Image>>>, cp: Pos, dirs: seq<Dir>, t: nat, n: nat) {
    0 < n && t <= |dirs| && forall u :: 0 <= u < t ==> ArcHolds(rule, g, cp, Neighbour(cp, dirs[u], n), dirs[u])
  }

  /** What ReviseNeighbours has collected after `t` offsets: neighbours
      along those offsets that lost candidates since `c0`, including every
      cell that changed. */
  ghost predicate Collected(c0: seq<seq<seq<Image>>>, g: seq<seq<seq<Image>>>, cp: Pos, dirs: seq<Dir>, t: nat,
                            changed: seq<Pos>, n: nat) {
    && 0 < n && t <= |dirs| && Square(c0, n) && Square(g, n)
    && (forall u :: 0 <= u < |changed| ==> OnGrid(changed[u], n))
    && (forall u :: 0 <= u < |changed| ==> exists k :: 0 <= k < t && changed[u] == Neighbour(cp, dirs[k], n))
    && (forall u :: 0 <= u < |changed| ==>
          |g[changed[u].x][changed[u].y]| < |c0[changed[u].x][changed[u].y]|)
    && (forall c :: OnGrid(c, n) && g[c.x][c.y] != c0[c.x][c.y] ==> c in changed)
  }

  /** The state of ReviseNeighbours after the first `t` offsets of `dirs`:
      the grid shrank from `c0` but the popped cell `cp` kept its list; the
      arcs out of `cp` along those offsets hold; the changed neighbours are
      collected, each removal counted; and when `cp` was settled in `c0`,
      nothing changed. */
  ghost predicate Scanned(rule: Rule2D, c0: seq<seq<seq<Image>>>, g: seq<seq<seq<Image>>>, cp: Pos, dirs: seq<Dir>,
                          t: nat, changed: seq<Pos>, n: nat) {
    && Collected(c0, g, cp, dirs, t, changed, n) && OnGrid(cp, n)
    && Shrunk(c0, g) && g[cp.x][cp.y] == c0[cp.x][cp.y]
    && ArcsOut(rule, g, cp, dirs, t, n)
    && GridSize(g) + |changed| <= GridSize(c0)
    && (changed == [] ==> g == c0)
    && (Settled(rule, Bounded, c0, cp, n) ==> changed == [])
  }

  /** One revision of ReviseNeighbours, as ReviseToward describes it,
      keeps Scanned with one more offset done. */
  lemma StepScanned(rule: Rule2D, c0: seq<seq<seq<Image>>>, before: seq<seq<seq<Image>>>,
                    after: seq<seq<seq<Image>>>, cp: Pos, dirs: seq<Dir>, t: nat, changed: seq<Pos>, next: Pos,
                    haschanged: bool, n: nat)
    requires Scanned(rule, c0, before, cp, dirs, t, changed, n) && t < |dirs| && dirs == CellsDirs(cp, n, n)
    requires Square(after, n) && Shrunk(before, after) && next == Neighbour(cp, dirs[t], n)
    requires before[cp.x][cp.y] != [] ==>
      Distinct(after[next.x][next.y]) && Supported(rule, before[cp.x][cp.y], after[next.x][next.y], dirs[t])
    requires ArcHolds(rule, before, cp, next, dirs[t]) ==> !haschanged
    requires forall c :: OnGrid(c, n) && c != next ==> after[c.x][c.y] == before[c.x][c.y]
    requires haschanged <==> |after[next.x][next.y]| < |before[next.x][next.y]|
    requires haschanged <==> GridSize(after) < GridSize(before)
    requires !haschanged ==> after == before
    ensures Scanned(rule, c0, after, cp, dirs, t + 1, if haschanged then changed + [next] else changed, n)
  {
    StepArcs(rule, c0, before, after, cp, dirs, t, next, n);
    StepCollected(rule, c0, before, after, cp, dirs, t, changed, next, haschanged, n);
  }

  /** The arc part of StepScanned: the popped cell keeps its list, the
      earlier arcs out of it survive the shrink and the revised one holds. */
  lemma StepArcs(rule: Rule2D, c0: seq<seq<seq<Image>>>, before: seq<seq<seq<Image>>>,
                 after: seq<seq<seq<Image>>>, cp: Pos, dirs: seq<Dir>, t: nat, next: Pos, n: nat)
    requires ArcsOut(rule, before, cp, dirs, t, n) && t < |dirs| && dirs == CellsDirs(cp, n, n)
    requires Square(c0, n) && Square(before, n) && OnGrid(cp, n)
    requires Shrunk(c0, before) && before[cp.x][cp.y] == c0[cp.x][cp.y]
    requires Square(after, n) && Shrunk(before, after) && next == Neighbour(cp, dirs[t], n)
    requires before[cp.x][cp.y] != [] ==>
      Distinct(after[next.x][next.y]) && Supported(rule, before[cp.x][cp.y], after[next.x][next.y], dirs[t])
    requires forall c :: OnGrid(c, n) && c != next ==> after[c.x][c.y] == before[c.x][c.y]
    ensures Shrunk(c0, after) && after[cp.x][cp.y] == c0[cp.x][cp.y]
    ensures ArcsOut(rule, after, cp, dirs, t + 1, n)
  {
    assert dirs[t] in dirs;
    CellsDirsMove(cp, n, dirs[t]);
    ShrunkTrans(c0, before, after);
    TowardKeeps(rule, before, after, cp, dirs, t, next, n);
  }


  /** The bookkeeping part of StepScanned: the collected list, the count
      of removals, and nothing collected when the popped cell was settled. */
  lemma StepCollected(rule: Rule2D, c0: seq<seq<seq<Image>>>, before: seq<seq<seq<Image>>>,
                      after: seq<seq<seq<Image>>>, cp: Pos, dirs: seq<Dir>, t: nat, changed: seq<Pos>, next: Pos,
                      haschanged: bool, n: nat)
    requires Collected(c0, before, cp, dirs, t, changed, n) && t < |dirs| && OnGrid(cp, n)
    requires Shrunk(c0, before) && GridSize(before) + |changed| <= GridSize(c0)
    requires changed == [] ==> before == c0
    requires Settled(rule, Bounded, c0, cp, n) ==> changed == []
    requires dirs == CellsDirs(cp, n, n) && Shrunk(before, after) && next == Neighbour(cp, dirs[t], n)
    requires ArcHolds(rule, before, cp, next, dirs[t]) ==> !haschanged
    requires forall c :: OnGrid(c, n) && c != next ==> after[c.x][c.y] == before[c.x][c.y]
    requires haschanged <==> |after[next.x][next.y]| < |before[next.x][next.y]|
    requires haschanged <==> GridSize(after) < GridSize(before)
    requires !haschanged ==> after == before
    ensures var ch := if haschanged then changed + [next] else changed;
      && Collected(c0, after, cp, dirs, t + 1, ch, n) && GridSize(after) + |ch| <= GridSize(c0)
      && (ch == [] ==> after == c0) && (Settled(rule, Bounded, c0, cp, n) ==> ch == [])
  {
    CollectStep(c0, before, after, cp, dirs, t, changed, next, haschanged, n);
    if Settled(rule, Bounded, c0, cp, n) {
      assert dirs[t] in dirs && dirs[t] in Offsets(Bounded, cp, n);
    }
  }

  /** One revision of ReviseNeighbours keeps the arcs already checked and
      adds the one just revised: the popped cell is not the neighbour
      revised, so it keeps its list while the targets of the earlier arcs
      shrink. */
  lemma TowardKeeps(rule: Rule2D, before: seq<seq<seq<Image>>>, after: seq<seq<seq<Image>>>, cp: Pos,
                    dirs: seq<Dir>, t: nat, next: Pos, n: nat)
    requires ArcsOut(rule, before, cp, dirs, t, n) && t < |dirs| && Square(before, n) && OnGrid(cp, n)
    requires next == Neighbour(cp, dirs[t], n) && next != cp
    requires Shrunk(before, after) && after[cp.x][cp.y] == before[cp.x][cp.y]
    requires before[cp.x][cp.y] != [] ==>
      Distinct(after[next.x][next.y]) && Supported(rule, before[cp.x][cp.y], after[next.x][next.y], dirs[t])
    ensures ArcsOut(rule, after, cp, dirs, t + 1, n)
  {
    forall u | 0 <= u < t ensures ArcHolds(rule, after, cp, Neighbour(cp, dirs[u], n), dirs[u]) {
      ArcShrunk(rule, before, after, cp, Neighbour(cp, dirs[u], n), dirs[u]);
    }
  }

  /** One revision of ReviseNeighbours keeps Collected once the neighbour
      is collected exactly when it lost candidates. */
  lemma CollectStep(c0: seq<seq<seq<Image>>>, before: seq<seq<seq<Image>>>, after: seq<seq<seq<Image>>>, cp: Pos,
                    dirs: seq<Dir>, t: nat, changed: seq<Pos>, next: Pos, haschanged: bool, n: nat)
    requires Collected(c0, before, cp, dirs, t, changed, n) && t < |dirs| && next == Neighbour(cp, dirs[t], n)
    requires Shrunk(c0, before) && Shrunk(before, after)
    requires forall c :: OnGrid(c, n) && c != next ==> after[c.x][c.y] == before[c.x][c.y]
    requires haschanged <==> |after[next.x][next.y]| < |before[next.x][next.y]|
    requires !haschanged ==> after == before
    ensures Collected(c0, after, cp, dirs, t + 1, if haschanged then changed + [next] else changed, n)
  {
    CollectShrinks(c0, before, after, changed, next, haschanged, n);
    CollectReached(cp, dirs, t, changed, next, n);
    CollectAll(c0, before, after, changed, next, haschanged, n);
  }

  /** Every cell that changed since `c0` is collected: either it changed
      before this revision, or it is the neighbour just revised. */
  lemma CollectAll(c0: seq<seq<seq<Image>>>, before: seq<seq<seq<Image>>>, after: seq<seq<seq<Image>>>,
                   changed: seq<Pos>, next: Pos, haschanged: bool, n: nat)
    requires Square(c0, n) && Square(before, n) && Square(after, n)
    requires forall c :: OnGrid(c, n) && before[c.x][c.y] != c0[c.x][c.y] ==> c in changed
    requires forall c :: OnGrid(c, n) && c != next ==> after[c.x][c.y] == before[c.x][c.y]
    requires !haschanged ==> after == before
    ensures var ch := if haschanged then changed + [next] else changed;
      forall c :: OnGrid(c, n) && after[c.x][c.y] != c0[c.x][c.y] ==> c in ch
  {
    var ch := if haschanged then changed + [next] else changed;
    forall c | OnGrid(c, n) && after[c.x][c.y] != c0[c.x][c.y] ensures c in ch {
      if after[c.x][c.y] == before[c.x][c.y] {
        assert c in changed;
      } else {
        assert c == next && haschanged;
      }
    }
  }

  /** The collected cells, the new one included, lost candidates since `c0`. */
  lemma CollectShrinks(c0: seq<seq<seq<Image>>>, before: seq<seq<seq<Image>>>, after: seq<seq<seq<Image>>>,
                       changed: seq<Pos>, next: Pos, haschanged: bool, n: nat)
    requires Square(c0, n) && OnGrid(next, n)
    requires Square(before, n)
    requires Square(after, n)
    requires forall u :: 0 <= u < |changed| ==>
      OnGrid(changed[u], n) && |before[changed[u].x][changed[u].y]| < |c0[changed[u].x][changed[u].y]|
    requires Shrunk(c0, before) && Shrunk(before, after)
    requires haschanged ==> |after[next.x][next.y]| < |before[next.x][next.y]|
    ensures var ch := if haschanged then changed + [next] else changed;
      forall u :: 0 <= u < |ch| ==> OnGrid(ch[u], n) && |after[ch[u].x][ch[u].y]| < |c0[ch[u].x][ch[u].y]|
  {
    var ch := if haschanged then changed + [next] else changed;
    forall u | 0 <= u < |ch| ensures OnGrid(ch[u], n) && |after[ch[u].x][ch[u].y]| < |c0[ch[u].x][ch[u].y]| {
      var c := ch[u];
      if u < |changed| {
        assert c == changed[u];
      }
      SubseqBounds(after[c.x][c.y], before[c.x][c.y]);
      SubseqBounds(before[c.x][c.y], c0[c.x][c.y]);
    }
  }

  /** The collected cells, the new one included, are neighbours along the
      first `t + 1` offsets. */
  lemma CollectReached(cp: Pos, dirs: seq<Dir>, t: nat, changed: seq<Pos>, next: Pos, n: nat)
    requires 0 < n && t < |dirs| && next == Neighbour(cp, dirs[t], n)
    requires forall u :: 0 <= u < |changed| ==> exists k :: 0 <= k < t && changed[u] == Neighbour(cp, dirs[k], n)
    ensures forall u :: 0 <= u < |changed| + 1 ==>
      exists k :: 0 <= k < t + 1 && (changed + [next])[u] == Neighbour(cp, dirs[k], n)
  {
    var ch := changed + [next];
    forall u | 0 <= u < |ch| ensures exists k :: 0 <= k < t + 1 && ch[u] == Neighbour(cp, dirs[k], n) {
      if u == |changed| {
        assert ch[u] == Neighbour(cp, dirs[t], n);
      } else {
        var k :| 0 <= k < t && changed[u] == Neighbour(cp, dirs[k], n);
        assert ch[u] == Neighbour(cp, dirs[k], n);
      }
    }
  }

  /** The end of ReviseNeighbours: all offsets done, every arc out of the
      popped cell holds, and each collected position is the neighbour along
      one of the offsets of `cellsDirs`. */
  lemma NeighboursDone(rule: Rule2D, c0: seq<seq<seq<Image>>>, g: seq<seq<seq<Image>>>, cp: Pos,
                       changed: seq<Pos>, n: nat)
    requires OnGrid(cp, n)
    requires ArcsOut(rule, g, cp, CellsDirs(cp, n, n), |CellsDirs(cp, n, n)|, n)
    requires Collected(c0, g, cp, CellsDirs(cp, n, n), |CellsDirs(cp, n, n)|, changed, n)
    ensures Settled(rule, Bounded, g, cp, n)
    ensures forall t :: 0 <= t < |changed| ==>
      (exists d :: d in CellsDirs(cp, n, n) && changed[t] == Neighbour(cp, d, n))
  {
    var dirs := CellsDirs(cp, n, n);
    forall d | d in Offsets(Bounded, cp, n) ensures ArcHolds(rule, g, cp, Neighbour(cp, d, n), d) {
      var u :| 0 <= u < |dirs| && dirs[u] == d;
    }
    forall t | 0 <= t < |changed| ensures exists d :: d in dirs && changed[t] == Neighbour(cp, d, n) {
      var k :| 0 <= k < |dirs| && changed[t] == Neighbour(cp, dirs[k], n);
      assert dirs[k] in dirs;
    }
  }

  class WFC2D {
    const inputimg: Image
    const N: nat
    const cellCount: nat
    var patterns: seq<Image>
    var constrains: seq<Triple>
    var cells: seq<seq<seq<Image>>>

    /** The grid is `cellCount` by `cellCount` and each cell is a sub-list
        of the key list. */
    ghost predicate Valid()
      reads this`cells, this`patterns
    {
      Square(cells, cellCount) && WithinKeys2D(cells, patterns)
    }

    /** The catalog and the triples were built from the input picture. */
    ghost predicate Built()
      reads this`patterns, this`constrains
    {
      && patterns == Catalog2D(inputimg, N)
      && constrains == AllTriples(patterns, patterns, patterns)
    }

    constructor (inputimg: Image, N: nat, cellCount: nat)
      ensures this.inputimg == inputimg && this.N == N && this.cellCount == cellCount
      ensures Valid() && Built()
      ensures cells == InitialGrid(patterns, cellCount)
    {
      this.inputimg := inputimg;
      this.N := N;
      this.cellCount := cellCount;
      new;
      Reset();
    }

    /** `__reset` (and the body of `__init__`): patterns, then triples,
        then cells. */
    method Reset()
      modifies this`patterns, this`constrains, this`cells
      ensures Valid() && Built()
      ensures cells == InitialGrid(patterns, cellCount)
    {
      InitPatterns();
      InitConstrains();
      InitCells();
      InitialGridSpec(patterns, cellCount);
    }

    /** `__initPatterns`. */
    method InitPatterns()
      modifies this`patterns
      ensures patterns == Catalog2D(inputimg, N)
    {
      patterns := CreatePatternsFromImage(inputimg, N);
    }

    /** `__initCells`: `cellCount` rows of `cellCount` cells, each a fresh
        copy of the key list. */
    method InitCells()
      modifies this`cells
      ensures cells == InitialGrid(patterns, cellCount)
    {
      var keys := patterns;
      var full := seq(cellCount, _ => keys);
      cells := [];
      var i := 0;
      while i < cellCount
        invariant i <= cellCount
        invariant |cells| == i && forall x :: 0 <= x < i ==> cells[x] == full
      {
        var cellrow: seq<seq<Image>> := [];
        var j := 0;
        while j < cellCount
          invariant j <= cellCount
          invariant cellrow == full[..j]
        {
          var cell: seq<Image> := [];
          var t := 0;
          while t < |keys|
            invariant t <= |keys|
            invariant cell == keys[..t]
          {
            cell := cell + [keys[t]];
            t := t + 1;
          }
          assert cell == keys;
          cellrow := cellrow + [cell];
          j := j + 1;
        }
        assert cellrow == full;
        cells := cells + [cellrow];
        i := i + 1;
      }
      assert cells == InitialGrid(keys, cellCount);
    }

    /** `__initConstrains`: the four tests for every ordered pair of keys,
        `keyi` in the outer loop. */
    method InitConstrains()
      modifies this`constrains
      ensures constrains == AllTriples(patterns, patterns, patterns)
    {
      var keys := patterns;
      var cs: seq<Triple> := [];
      var a := 0;
      while a < |keys|
        invariant a <= |keys|
        invariant cs == AllTriples(keys, keys[..a], keys)
      {
        var row := RowTests(keys, keys[a]);
        assert cs + row == AllTriples(keys, keys[..a + 1], keys) by {
          AllTriplesSnoc(keys, keys, keys, a);
        }
        cs := cs + row;
        a := a + 1;
      }
      assert keys[..a] == keys;
      constrains := cs;
    }

    /** `__observe(draw)`: the scan keeps the row-major first cell of
        strictly smallest size among those with more than one candidate,
        starting from the bound `len(patterns) + 1`. With no such cell it
        returns `False` and changes nothing; otherwise that cell becomes its
        candidate `draw mod size` and its position is returned. */
    method Observe(draw: nat) returns (pos: Option<Pos>)
      requires Valid()
      modifies this`cells
      ensures Valid()
      ensures IsFirstMin2D(old(cells), |patterns| + 1, |old(cells)|, 0, pos)
      ensures pos.None? <==> HasFinished(old(cells))
      ensures pos.None? ==> cells == old(cells)
      ensures pos.Some? ==>
        var p := pos.value;
        InGrid(old(cells), p) && 1 < |old(cells)[p.x][p.y]| &&
        cells == SetCell(old(cells), p, [old(cells)[p.x][p.y][draw % |old(cells)[p.x][p.y]|]])
    {
      pos := ScanFirstMin2D(cells, |patterns| + 1);
      FirstMinFinds(cells, patterns, pos);
      if pos.None? {
        return;
      }
      var p := pos.value;
      var cell := cells[p.x][p.y];
      var x := cell[draw % |cell|];
      SubseqSingleton(x, cell);
      ShrunkSet(cells, p, [x]);
      ShrunkWithin(cells, SetCell(cells, p, [x]), patterns);
      cells := SetCell(cells, p, [x]);
    }

    /** `__validate(cells[a], cells[b], dir)`: rebuilds `cellB` from the
        candidates `j` having some `i` of `cellA` with `[i, j, dir]` in
        `constrains` (the inner loop stops at the first such `i`), and
        reports whether the multiset of `cellB` changed. */
    method Validate(a: Pos, b: Pos, d: Dir) returns (changed: bool)
      requires InGrid(cells, a) && InGrid(cells, b)
      modifies this`cells
      ensures cells == Revise(Listed(constrains), old(cells), a, b, d)
      ensures changed <==> multiset(cells[b.x][b.y]) != multiset(old(cells)[b.x][b.y])
      ensures changed <==> GridSize(cells) < GridSize(old(cells))
      ensures !changed ==> cells == old(cells)
    {
      var cellA, cellB := cells[a.x][a.y], cells[b.x][b.y];
      var newcell := ReviseCell(constrains, cellA, cellB, d);
      RevisedSpec2D(Listed(constrains), cellA, cellB, d);
      ReviseShrinks(Listed(constrains), cells, a, b, d);
      changed := multiset(cellB) != multiset(newcell);
      cells := SetCell(cells, b, newcell);
    }

    /** `__stackpropagate(pos)`: pop a position, revise its in-grid
        neighbours from it and push every neighbour that changed, until the
        stack is empty. Domains only shrink, and `pushes`, the number of
        pushes, is at most the number of candidates removed: nothing is
        pushed without a strict shrink. At the end the propagation has
        reached its fixed point around `pos` and around every cell it
        changed; when `pos` was settled already, nothing changes. The
        change is a pruning: it keeps every consistent sub-grid of the grid
        it started from. */
    method StackPropagate(pos: Pos) returns (ghost pushes: nat)
      requires Valid() && InGrid(cells, pos)
      modifies this`cells
      ensures Valid() && Shrunk(old(cells), cells)
      ensures GridSize(cells) + pushes <= GridSize(old(cells))
      ensures pushes == 0 ==> cells == old(cells)
      ensures Settled(Listed(constrains), Bounded, cells, pos, cellCount)
      ensures SettledSince(Listed(constrains), Bounded, old(cells), cells, cellCount)
      ensures Settled(Listed(constrains), Bounded, old(cells), pos, cellCount) ==> cells == old(cells)
      ensures Pruned(Listed(constrains), Bounded, old(cells), cells, cellCount)
    {
      ghost var c0 := cells;
      PrunedRefl(Listed(constrains), Bounded, c0, cellCount);
      ghost var settled0 := Settled(Listed(constrains), Bounded, c0, pos, cellCount);
      ShrunkRefl(cells);
      var stack := [pos];
      pushes := 0;
      while |stack| > 0
        invariant Valid() && Shrunk(c0, cells)
        invariant forall t :: 0 <= t < |stack| ==> OnGrid(stack[t], cellCount)
        invariant GridSize(cells) + pushes <= GridSize(c0)
        invariant pushes == 0 ==> cells == c0
        invariant OffStackSettled(constrains, c0, cells, pos, stack, cellCount)
        invariant settled0 ==> cells == c0 && (stack == [] || stack == [pos])
        invariant Pruned(Listed(constrains), Bounded, c0, cells, cellCount)
        decreases GridSize(cells), |stack|
      {
        ghost var added;
        ghost var before := cells;
        stack, added := PopRevise(stack, pos, c0);
        PrunedTrans(Listed(constrains), Bounded, c0, before, cells, cellCount);
        pushes := pushes + added;
      }
    }

    /** One pass of the `__stackpropagate` loop: pop the last position,
        revise its neighbours and push those that changed. The popped cell
        is settled afterwards and the cells off the stack stay settled; a
        popped cell that was settled already changes nothing. */
    method PopRevise(stack: seq<Pos>, ghost pos: Pos, ghost c0: seq<seq<seq<Image>>>)
      returns (stack': seq<Pos>, ghost added: nat)
      requires Valid() && 0 < |stack| && Shrunk(c0, cells)
      requires forall t :: 0 <= t < |stack| ==> OnGrid(stack[t], cellCount)
      requires OffStackSettled(constrains, c0, cells, pos, stack, cellCount)
      modifies this`cells
      ensures Valid() && Shrunk(c0, cells) && Shrunk(old(cells), cells)
      ensures forall t :: 0 <= t < |stack'| ==> OnGrid(stack'[t], cellCount)
      ensures |stack'| == |stack| - 1 + added
      ensures GridSize(cells) + added <= GridSize(old(cells))
      ensures added == 0 ==> cells == old(cells)
      ensures OffStackSettled(constrains, c0, cells, pos, stack', cellCount)
      ensures Settled(Listed(constrains), Bounded, old(cells), stack[|stack| - 1], cellCount) ==> added == 0
      ensures Pruned(Listed(constrains), Bounded, old(cells), cells, cellCount)
    {
      var currentpos := stack[|stack| - 1];
      stack' := stack[..|stack| - 1];
      ghost var before := cells;
      var changed := ReviseNeighbours(currentpos);
      assert Shrunk(c0, cells) by {
        ShrunkTrans(c0, before, cells);
      }
      assert OffStackSettled(constrains, c0, cells, pos, stack' + changed, cellCount) by {
        KeepSettled(constrains, c0, before, cells, pos, stack, changed, cellCount);
      }
      stack' := stack' + changed;
      added := |changed|;
    }

    /** The body of the `__stackpropagate` loop for one popped position:
        for each direction of `cellsDirs`, revise the neighbour (when the
        popped cell is not empty) and collect it when it changed, in the
        order the pushes happen. Afterwards every arc out of the popped cell
        holds; each collected position is an in-grid neighbour that lost
        candidates, and every changed cell is collected; and a popped cell
        that was settled already changes nothing. */
    method ReviseNeighbours(currentpos: Pos) returns (changed: seq<Pos>)
      requires Valid() && InGrid(cells, currentpos)
      modifies this`cells
      ensures Valid() && Shrunk(old(cells), cells)
      ensures cells[currentpos.x][currentpos.y] == old(cells)[currentpos.x][currentpos.y]
      ensures Settled(Listed(constrains), Bounded, cells, currentpos, cellCount)
      ensures forall t :: 0 <= t < |changed| ==> OnGrid(changed[t], cellCount)
      ensures forall t :: 0 <= t < |changed| ==>
        (exists d :: d in CellsDirs(currentpos, cellCount, cellCount) && changed[t] == Neighbour(currentpos, d, cellCount))
      ensures forall t :: 0 <= t < |changed| ==>
        |cells[changed[t].x][changed[t].y]| < |old(cells)[changed[t].x][changed[t].y]|
      ensures forall c :: OnGrid(c, cellCount) && cells[c.x][c.y] != old(cells)[c.x][c.y] ==> c in changed
      ensures GridSize(cells) + |changed| <= GridSize(old(cells))
      ensures changed == [] ==> cells == old(cells)
      ensures Settled(Listed(constrains), Bounded, old(cells), currentpos, cellCount) ==> changed == []
      ensures Pruned(Listed(constrains), Bounded, old(cells), cells, cellCount)
    {
      ghost var c0 := cells;
      ShrunkRefl(cells);
      PrunedRefl(Listed(constrains), Bounded, c0, cellCount);
      changed := [];
      var dirs := CellsDirs(currentpos, cellCount, cellCount);
      var t := 0;
      while t < |dirs|
        invariant t <= |dirs|
        invariant Valid() && Scanned(Listed(constrains), c0, cells, currentpos, dirs, t, changed, cellCount)
        invariant Pruned(Listed(constrains), Bounded, c0, cells, cellCount)
      {
        changed := ReviseStep(currentpos, dirs, t, changed, c0);
        t := t + 1;
      }
      NeighboursDone(Listed(constrains), c0, cells, currentpos, changed, cellCount);
    }

    /** One pass of the loop of ReviseNeighbours: revise the neighbour along
        `dirs[t]` and collect it when it lost candidates. */
    method ReviseStep(currentpos: Pos, dirs: seq<Dir>, t: nat, changed: seq<Pos>, ghost c0: seq<seq<seq<Image>>>)
      returns (changed': seq<Pos>)
      requires Valid() && OnGrid(currentpos, cellCount) && dirs == CellsDirs(currentpos, cellCount, cellCount)
      requires t < |dirs| && Scanned(Listed(constrains), c0, cells, currentpos, dirs, t, changed, cellCount)
      requires Pruned(Listed(constrains), Bounded, c0, cells, cellCount)
      modifies this`cells
      ensures Valid() && Scanned(Listed(constrains), c0, cells, currentpos, dirs, t + 1, changed', cellCount)
      ensures Pruned(Listed(constrains), Bounded, c0, cells, cellCount)
    {
      ghost var before := cells;
      var next, haschanged := ReviseToward(currentpos, dirs[t]);
      ghost var a, b := before[currentpos.x][currentpos.y], before[next.x][next.y];
      assert a != [] ==> Distinct(cells[next.x][next.y]) && Supported(Listed(constrains), a, cells[next.x][next.y], dirs[t]) by {
        RevisedSupported(Listed(constrains), a, b, dirs[t]);
      }
      assert ArcHolds(Listed(constrains), before, currentpos, next, dirs[t]) ==> !haschanged by {
        FixedPointSupported(Listed(constrains), a, b, dirs[t]);
      }
      StepScanned(Listed(constrains), c0, before, cells, currentpos, dirs, t, changed, next, haschanged, cellCount);
      assert Pruned(Listed(constrains), Bounded, c0, cells, cellCount) by {
        if a != [] {
          RevisePruned(Listed(constrains), Bounded, before, currentpos, dirs[t], cellCount);
        } else {
          PrunedRefl(Listed(constrains), Bounded, before, cellCount);
        }
        PrunedTrans(Listed(constrains), Bounded, c0, before, cells, cellCount);
      }
      changed' := changed;
      if haschanged {
        changed' := changed + [next];
      }
    }

    /** One direction `d` of the `__stackpropagate` loop body: the
        neighbour `next = (currentpos + d) mod size`, revised from the
        popped cell when that is not empty; `haschanged` says that the
        neighbour lost candidates. */
    method ReviseToward(currentpos: Pos, d: Dir) returns (next: Pos, haschanged: bool)
      requires Valid() && InGrid(cells, currentpos)
      modifies this`cells
      ensures Valid() && Shrunk(old(cells), cells)
      ensures next == Neighbour(currentpos, d, cellCount)
      ensures cells == if old(cells)[currentpos.x][currentpos.y] != [] then
        Revise(Listed(constrains), old(cells), currentpos, next, d) else old(cells)
      ensures old(cells)[currentpos.x][currentpos.y] != [] ==>
        cells[next.x][next.y] == Revised2D(Listed(constrains), old(cells)[currentpos.x][currentpos.y], old(cells)[next.x][next.y], d)
      ensures forall c :: OnGrid(c, cellCount) && c != next ==> cells[c.x][c.y] == old(cells)[c.x][c.y]
      ensures haschanged <==> |cells[next.x][next.y]| < |old(cells)[next.x][next.y]|
      ensures haschanged <==> GridSize(cells) < GridSize(old(cells))
      ensures !haschanged ==> cells == old(cells)
    {
      next := Pos((currentpos.x + d.dx) % |cells|, (currentpos.y + d.dy) % |cells|);
      haschanged := false;
      ShrunkRefl(cells);
      if cells[currentpos.x][currentpos.y] != [] {
        ghost var before := cells;
        haschanged := Validate(currentpos, next, d);
        ReviseKeeps(Listed(constrains), before, before, cellCount, patterns, currentpos, next, d);
        ReviseShrinks(Listed(constrains), before, currentpos, next, d);
        RevisedSpec2D(Listed(constrains), before[currentpos.x][currentpos.y], before[next.x][next.y], d);
      }
    }

    /** `hasError` (and its twin `__hasError`). */
    method ScanError() returns (b: bool)
      ensures b <==> HasError(cells)
    {
      var idrow := 0;
      while idrow < |cells|
        invariant idrow <= |cells|
        invariant forall x, y :: 0 <= x < idrow && 0 <= y < |cells[x]| ==> cells[x][y] != []
      {
        var id := 0;
        while id < |cells[idrow]|
          invariant id <= |cells[idrow]|
          invariant forall y :: 0 <= y < id ==> cells[idrow][y] != []
        {
          if cells[idrow][id] == [] {
            return true;
          }
          id := id + 1;
        }
        idrow := idrow + 1;
      }
      return false;
    }

    /** One pass of the `generate` loop up to the deadlock test:
        `pos = self.__observe()` and, when it returned a position,
        `self.__stackpropagate(pos)`. */
    method Round(draw: nat) returns (pos: Option<Pos>)
      requires Valid()
      modifies this`cells
      ensures Valid() && Shrunk(old(cells), cells)
      ensures IsFirstMin2D(old(cells), |patterns| + 1, |old(cells)|, 0, pos)
      ensures pos.None? <==> HasFinished(old(cells))
      ensures pos.None? ==> cells == old(cells)
      ensures pos.Some? ==>
        var p := pos.value;
        InGrid(old(cells), p) && 1 < |old(cells)[p.x][p.y]| &&
        var c1 := SetCell(old(cells), p, [old(cells)[p.x][p.y][draw % |old(cells)[p.x][p.y]|]]);
        && Shrunk(c1, cells)
        && Settled(Listed(constrains), Bounded, cells, p, cellCount)
        && SettledSince(Listed(constrains), Bounded, c1, cells, cellCount)
        && Pruned(Listed(constrains), Bounded, c1, cells, cellCount)
      ensures SettledSince(Listed(constrains), Bounded, old(cells), cells, cellCount)
    {
      ghost var c0 := cells;
      pos := Observe(draw);
      if pos.None? {
        ShrunkRefl(cells);
        return;
      }
      var p := pos.value;
      ghost var c1 := cells;
      ShrunkSet(c0, p, c1[p.x][p.y]) by {
        SubseqSingleton(c1[p.x][p.y][0], c0[p.x][p.y]);
      }
      var _ := StackPropagate(p);
      ShrunkTrans(c0, c1, cells);
      SettledSinceSet(Listed(constrains), Bounded, c0, p, c1[p.x][p.y], cells, cellCount);
    }

    /** `generate`, with `draws[r]` standing for the `randint` of round `r`
        and `restarts` bounding the restarts: run the rounds and, on a
        deadlock, restart from a fresh object state with the draws left. */
    method Generate(draws: seq<nat>, restarts: nat) returns (outcome: Outcome2D)
      requires Valid() && Built()
      modifies this`cells, this`patterns, this`constrains
      ensures Valid() && Built()
      ensures outcome.Finished? ==> HasFinished(cells)
      ensures !outcome.OutOfRestarts? && patterns != [] && !HasError(old(cells)) ==> !HasError(cells)
      ensures outcome.Finished? && patterns != [] && !HasError(old(cells)) ==> Decided(cells)
      ensures (&& outcome.Finished? && 2 <= |patterns| && !HasError(old(cells))
               && SettledSince(Listed(constrains), Bounded, InitialGrid(patterns, cellCount), old(cells), cellCount))
        ==> AdjacencySound(Listed(constrains), Bounded, cells, cellCount)
      decreases restarts
    {
      var k;
      outcome, k := Rounds(draws);
      if outcome.OutOfRestarts? && restarts > 0 {
        Reset();
        outcome := Generate(draws[k..], restarts - 1);
      } else if outcome.Finished? && 2 <= |patterns| && !HasError(old(cells)) &&
        SettledSince(Listed(constrains), Bounded, InitialGrid(patterns, cellCount), old(cells), cellCount)
      {
        assert Decided(cells);
        SoundWhenDecided(Listed(constrains), Bounded, patterns, cells, cellCount);
      }
    }

    /** The `while True` loop of `generate`: snapshot the grid, observe,
        stop when `__observe` returns `False`, propagate from the observed
        cell, report a deadlock once more than `cellCount * cellCount * 2`
        rounds have run, and put the snapshot back when a cell ran empty.
        `k` is the number of draws used; `OutOfRestarts` reports the
        deadlock, which `generate` answers with a restart when one is
        left. */
    method Rounds(draws: seq<nat>) returns (outcome: Outcome2D, k: nat)
      requires Valid()
      modifies this`cells
      ensures Valid() && k <= |draws| && Shrunk(old(cells), cells)
      ensures outcome.Finished? ==> HasFinished(cells)
      ensures outcome.OutOfDraws? ==> k == |draws|
      ensures outcome.OutOfRestarts? ==> k == cellCount * cellCount * 2 + 1
      ensures !outcome.OutOfRestarts? && patterns != [] && !HasError(old(cells)) ==> !HasError(cells)
      ensures SettledSince(Listed(constrains), Bounded, InitialGrid(patterns, cellCount), old(cells), cellCount) ==>
        SettledSince(Listed(constrains), Bounded, InitialGrid(patterns, cellCount), cells, cellCount)
    {
      ghost var good := patterns != [] && !HasError(cells);
      ghost var base := InitialGrid(patterns, cellCount);
      ghost var sound := SettledSince(Listed(constrains), Bounded, base, cells, cellCount);
      ghost var c0 := cells;
      ShrunkRefl(cells);
      k := 0;
      while k < |draws|
        invariant k <= |draws| && k <= cellCount * cellCount * 2
        invariant Valid()
        invariant good ==> !HasError(cells)
        invariant sound ==> SettledSince(Listed(constrains), Bounded, base, cells, cellCount)
        invariant Shrunk(c0, cells) && c0 == old(cells) && base == InitialGrid(patterns, cellCount)
        invariant sound == SettledSince(Listed(constrains), Bounded, base, c0, cellCount)
      {
        k := k + 1;
        var cellscopy := cells;
        var pos := Round(draws[k - 1]);
        ShrunkTrans(c0, cellscopy, cells);
        if sound {
          SettledSinceTrans(Listed(constrains), Bounded, base, cellscopy, cells, cellCount);
        }
        if pos.None? {
          outcome := Finished;
          return;
        }
        if k > cellCount * cellCount * 2 {
          outcome := OutOfRestarts;
          return;
        }
        RestoreOnError(cellscopy);
      }
      outcome := OutOfDraws;
    }

    /** The end of a `generate` round: `if self.hasError(): self.cells =
        cellscopy`. */
    method RestoreOnError(cellscopy: seq<seq<seq<Image>>>)
      modifies this`cells
      ensures cells == if HasError(old(cells)) then cellscopy else old(cells)
    {
      var err := ScanError();
      if err {
        cells := cellscopy;
      }
    }
  }
}
