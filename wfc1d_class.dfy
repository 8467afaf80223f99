/** The class `WFC` of the 1-D generator: the catalog, adjacency table and
    wave are fields that the methods update in place. */
module Wfc1DClass {
  import opened Lists
  import opened Tally
  import opened Patterns1D
  import opened Wave1D

  class WFC {
    const input: string
    const n: nat
    const cellsCount: nat
    var patterns: Dict<string>
    var constrains: seq<Pair>
    var cells: seq<seq<string>>
    var finalstate: seq<string>

    /** The wave has one cell per output slot, each a sub-list of the
        catalog's key list, and every key has length N. */
    ghost predicate Valid()
      reads this`cells, this`patterns
    {
      && |cells| == cellsCount
      && WithinKeys(cells, patterns.keys)
      && forall k :: k in patterns.keys ==> |k| == n
    }

    /** The catalog and the table were built from the input. No method other
        than the constructor assigns `input`, `n`, `patterns` or `constrains`,
        so this holds for the lifetime of the object. */
    ghost predicate Built()
      reads this`patterns, this`constrains
    {
      && patterns == PatternsWrap(input, n)
      && constrains == AllPairs(patterns, n, patterns.keys, patterns.keys)
    }

    constructor (inputstr: string, n: nat, cellsCount: nat)
      ensures Valid() && Built()
      ensures input == inputstr && this.n == n && this.cellsCount == cellsCount
      ensures cells == InitialCells(patterns.keys, cellsCount) && finalstate == []
    {
      input := inputstr;
      this.n := n;
      this.cellsCount := cellsCount;
      new;
      InitPatterns();
      InitConstrains();
      WrapKeyLengths(inputstr, n);
      Reset();
      InitialWithinKeys(patterns.keys, cellsCount);
      finalstate := [];
    }

    /** `initPatterns`: fills `self.patterns` with the circular windows. */
    method InitPatterns()
      modifies this`patterns
      ensures patterns == PatternsWrap(input, n)
    {
      patterns := Dict([], map[]);
      var i := n;
      var wrapinput := PySlice(input, |input| - i + 1, |input|) + input;
      var chunks := Chunks(wrapinput, i);
      var t := 0;
      while t < |chunks|
        invariant t <= |chunks|
        invariant patterns == CountAll(Sized(chunks[..t], i))
      {
        var k := chunks[t];
        ChunkStep(chunks, i, t);
        if |k| == i {
          patterns := Bump(patterns, k);
        }
        t := t + 1;
      }
      assert chunks[..t] == chunks;
    }

    /** `initCells`: `cellsCount` cells, each a fresh copy of the key list. */
    method InitCells()
      modifies this`cells
      ensures cells == InitialCells(patterns.keys, cellsCount)
    {
      cells := [];
      var i := 0;
      while i < cellsCount
        invariant i <= cellsCount
        invariant cells == InitialCells(patterns.keys, i)
      {
        var cell: seq<string> := [];
        var t := 0;
        while t < |patterns.keys|
          invariant t <= |patterns.keys|
          invariant cell == patterns.keys[..t]
        {
          cell := cell + [patterns.keys[t]];
          t := t + 1;
        }
        assert cell == patterns.keys;
        cells := cells + [cell];
        i := i + 1;
      }
    }

    /** `initConstrains`: every ordered pair of keys `[i, j]` whose
        concatenation shows only catalog windows, `i` in the outer loop. */
    method InitConstrains()
      modifies this`constrains
      ensures constrains == AllPairs(patterns, n, patterns.keys, patterns.keys)
    {
      var keys := patterns.keys;
      var cs: seq<Pair> := [];
      var a := 0;
      while a < |keys|
        invariant a <= |keys|
        invariant cs == AllPairs(patterns, n, keys[..a], keys)
      {
        var i := keys[a];
        var b := 0;
        while b < |keys|
          invariant b <= |keys|
          invariant cs == AllPairs(patterns, n, keys[..a], keys) + RowPairs(patterns, n, i, keys[..b])
        {
          var j := keys[b];
          var checkstr := i + j;
          var foundpatterns := GetPatternsNoWrap(checkstr, n);
          RowPairsSnoc(patterns, n, i, keys, b);
          AdmissibleKeys(patterns, n, i, j);
          if foundpatterns.count.Keys <= patterns.count.Keys {
            cs := cs + [Pair(i, j)];
          }
          b := b + 1;
        }
        assert keys[..b] == keys;
        AllPairsSnoc(patterns, n, keys, keys, a);
        a := a + 1;
      }
      assert keys[..a] == keys;
      constrains := cs;
    }

    /** `__observe(draw)`: the scan keeps the first undecided cell of
        strictly smallest size, starting from the bound `len(patterns) + 1`;
        that cell (index -1, the last one, when the scan found none) is
        collapsed to its candidate `draw mod size`, which is also written to
        the output slot. An empty chosen cell makes `randint` fail and
        nothing changes. */
    method Observe(draw: nat) returns (minid: int, ok: bool)
      requires Valid() && |finalstate| == |cells|
      modifies this`cells, this`finalstate
      ensures Valid() && |finalstate| == |cells|
      ensures IsFirstMin(old(cells), old(finalstate), |patterns.keys| + 1, |cells|, minid)
      ensures EMPTY in old(finalstate) ==> 0 <= minid
      ensures var at := PyIndex(minid, |cells|);
        ok <==> 0 <= at && old(cells)[at] != []
      ensures ok ==>
        var at := PyIndex(minid, |cells|);
        var x := old(cells)[at][draw % |old(cells)[at]|];
        x in patterns.keys &&
        cells == old(cells)[at := [x]] && finalstate == old(finalstate)[at := x]
      ensures !ok ==> cells == old(cells) && finalstate == old(finalstate)
    {
      minid := ScanFirstMin(cells, finalstate, |patterns.keys| + 1);
      if EMPTY in finalstate {
        ScanFinds(cells, finalstate, patterns.keys, minid);
      }
      var at := if minid < 0 then minid + |cells| else minid;
      if at < 0 || cells[at] == [] {
        ok := false;
        return;
      }
      var x := cells[at][draw % |cells[at]|];
      SubseqBounds(cells[at], patterns.keys);
      assert x in cells[at];
      assert x in patterns.keys;
      SubseqSingleton(x, patterns.keys);
      WithinKeysUpdate(cells, patterns.keys, at, [x]);
      finalstate := finalstate[at := x];
      cells := cells[at := [x]];
      ok := true;
    }

    /** `__validate(cells[a], cells[b])`: rebuilds `cellB` from the candidates
        `j` having some `i` of `cellA` with `[i, j]` in `constrains`, then
        reports whether the multiset of `cellB` changed. */
    method Validate(a: nat, b: nat) returns (changed: bool)
      requires a < |cells| && b < |cells|
      modifies this`cells
      ensures cells == old(cells)[b := Revised(Table(constrains), old(cells)[a], old(cells)[b])]
      ensures changed <==> multiset(cells[b]) != multiset(old(cells)[b])
      ensures changed <==> |cells[b]| < |old(cells)[b]|
    {
      var cellA, cellB := cells[a], cells[b];
      ghost var ok := Support(Table(constrains), cellA, cellB);
      var newcell: seq<string> := [];
      var jj := 0;
      while jj < |cellB|
        invariant jj <= |cellB|
        invariant newcell == Refine(cellB[..jj], ok)
      {
        var j := cellB[jj];
        ghost var before := newcell;
        var ii := 0;
        while ii < |cellA|
          invariant ii <= |cellA|
          invariant newcell == if (exists t :: 0 <= t < ii && Pair(cellA[t], j) in constrains) && j !in before
            then before + [j] else before
        {
          var i := cellA[ii];
          if Pair(i, j) in constrains {
            if j !in newcell {
              newcell := newcell + [j];
            }
          }
          ii := ii + 1;
        }
        assert j in cellB;
        if exists t :: 0 <= t < |cellA| && Pair(cellA[t], j) in constrains {
          var t :| 0 <= t < |cellA| && Pair(cellA[t], j) in constrains;
          assert Allowed(Table(constrains), cellA[t], j);
          assert j in ok;
        } else {
          assert j !in ok;
        }
        assert cellB[..jj + 1][..jj] == cellB[..jj];
        jj := jj + 1;
      }
      assert cellB[..jj] == cellB;
      RevisedSpec(Table(constrains), cellA, cellB);
      changed := multiset(cellB) != multiset(newcell);
      cells := cells[b := newcell];
    }

    /** `__propagate(pos)`: revise the right neighbour (mod the number of
        cells) from a non-empty cell, and continue from it while that
        changed it. */
    method Propagate(pos: nat)
      requires pos < |cells|
      modifies this`cells
      ensures cells == Propagated(Table(constrains), old(cells), pos)
      decreases TotalSize(cells)
    {
      ghost var c0 := cells;
      var nextpos := (pos + 1) % |cells|;
      var haschanged := false;
      if cells[pos] != [] {
        haschanged := Validate(pos, nextpos);
      }
      assert haschanged <==> ChangesNext(Table(constrains), c0, pos);
      if haschanged {
        PropagatedGo(Table(constrains), c0, pos);
        Propagate(nextpos);
      } else {
        PropagatedStop(Table(constrains), c0, pos);
        if c0[pos] != [] {
          AdvanceSame(Table(constrains), c0, pos);
        }
      }
    }

    /** Every output slot is still undecided or holds a catalog key. */
    ghost predicate SlotsOk()
      reads this`finalstate, this`cells, this`patterns
    {
      && |finalstate| == |cells|
      && MarksWithin(finalstate, patterns.keys)
    }

    /** One pass of the `generate` loop: `pos = self.__observe()` followed
        by `self.__propagate(pos)`. The scan's cell is collapsed to its
        candidate `draw mod size`, which is also written to its output slot,
        and the wave becomes the propagation from it; an empty chosen cell
        makes `randint` fail and nothing changes. */
    method Round(draw: nat) returns (pos: int, ok: bool)
      requires Valid() && SlotsOk() && EMPTY in finalstate
      modifies this`cells, this`finalstate
      ensures Valid() && SlotsOk()
      ensures 0 <= pos < |cells| && IsFirstMin(old(cells), old(finalstate), |patterns.keys| + 1, |cells|, pos)
      ensures ok <==> old(cells)[pos] != []
      ensures ok ==>
        var x := old(cells)[pos][draw % |old(cells)[pos]|];
        finalstate == old(finalstate)[pos := x] &&
        cells == Propagated(Table(constrains), old(cells)[pos := [x]], pos)
      ensures !ok ==> cells == old(cells) && finalstate == old(finalstate)
      ensures ok && EMPTY !in patterns.keys ==>
        multiset(finalstate)[EMPTY] + 1 == multiset(old(finalstate))[EMPTY]
    {
      ghost var f0 := finalstate;
      pos, ok := Observe(draw);
      if ok {
        MarkOne(f0, finalstate, pos, patterns.keys);
        ghost var c1 := cells;
        Propagate(pos);
        KeepsWithinKeys(Table(constrains), c1, pos, patterns.keys);
        PropagatedLength(Table(constrains), c1, pos);
      }
    }

    /** `generate`, with `draws[r]` standing for the `randint` of round `r`:
        every output slot starts undecided; while one is, observe and
        propagate from the observed cell; then reset the wave and join the
        slots. A finished output joins catalog keys; a crash happens on the
        cell the scan chose, which has no candidate left. */
    method Generate(draws: seq<nat>) returns (outcome: Outcome, ghost rounds: nat)
      requires Valid()
      modifies this`cells, this`finalstate
      ensures Valid() && rounds <= |draws| && |finalstate| == |cells|
      ensures outcome.Done? ==> EMPTY !in finalstate && outcome.output == Join(finalstate)
      ensures outcome.Done? ==> forall q :: 0 <= q < |finalstate| ==> finalstate[q] in patterns.keys
      ensures outcome.Done? ==> |outcome.output| == cellsCount * n
      ensures outcome.Done? ==> cells == InitialCells(patterns.keys, cellsCount)
      ensures outcome.Crashed? ==>
        exists q :: 0 <= q < |cells| && cells[q] == [] && IsFirstMin(cells, finalstate, |patterns.keys| + 1, |cells|, q)
      ensures outcome.OutOfDraws? ==> rounds == |draws|
      ensures EMPTY !in patterns.keys ==> (outcome.Done? ==> rounds == cellsCount)
      ensures EMPTY !in patterns.keys && cellsCount <= |draws| ==> !outcome.OutOfDraws?
    {
      var slots := AllUndecided(|cells|);
      finalstate := slots;
      var round := 0;
      rounds := 0;
      while EMPTY in finalstate && round < |draws|
        invariant rounds == round <= |draws|
        invariant Valid() && SlotsOk()
        invariant EMPTY !in patterns.keys ==> multiset(finalstate)[EMPTY] + round == cellsCount
        decreases |draws| - round
      {
        var pos, ok := Round(draws[round]);
        if !ok {
          assert cells[pos] == [];
          outcome := Crashed;
          return;
        }
        round := round + 1;
        rounds := round;
      }
      if EMPTY in finalstate {
        outcome := OutOfDraws;
        return;
      }
      ghost var f := finalstate;
      FilledKeys(f, patterns.keys);
      Reset();
      InitialWithinKeys(patterns.keys, cellsCount);
      FilledLength(f, patterns.keys, n);
      outcome := Done(Join(finalstate));
    }

    /** `reset`: the wave is the initial one again. */
    method Reset()
      modifies this`cells
      ensures cells == InitialCells(patterns.keys, cellsCount)
    {
      InitCells();
    }
  }
}
