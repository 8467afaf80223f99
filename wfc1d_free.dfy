/** The free-function draft of the 1-D generator: the wave and the output
    slots are Python lists mutated in place, here arrays. */
module Wfc1DFree {
  import opened Lists
  import opened Tally
  import opened Patterns1D
  import opened Wave1D

  /** `initializeCells(patterns, n)`: a fresh list of `n` cells, each a copy
      of the key list. */
  method InitializeCells(patterns: Dict<string>, n: nat) returns (cells: array<seq<string>>)
    ensures fresh(cells)
    ensures cells[..] == InitialCells(patterns.keys, n)
  {
    cells := new seq<string>[n];
    var i := 0;
    while i < n
      modifies cells
      invariant i <= n
      invariant forall q :: 0 <= q < i ==> cells[q] == patterns.keys
    {
      var cell: seq<string> := [];
      var t := 0;
      while t < |patterns.keys|
        invariant t <= |patterns.keys|
        invariant cell == patterns.keys[..t]
      {
        cell := cell + [patterns.keys[t]];
        t := t + 1;
      }
      assert cell == patterns.keys;
      cells[i] := cell;
      i := i + 1;
    }
  }

  /** `observe(patterns, cells, finalstate)`, with `draw` for the `randint`:
      the first undecided cell of strictly smallest size (index -1, the last
      one, when none is below `len(patterns) + 1`) is collapsed to its
      candidate `draw mod size`, also written to its output slot; an empty
      chosen cell makes `randint` fail and nothing changes. */
  method Observe(patterns: Dict<string>, cells: array<seq<string>>, finalstate: array<string>, draw: nat)
    returns (minid: int, ok: bool)
    requires cells.Length == finalstate.Length
    modifies cells, finalstate
    ensures IsFirstMin(old(cells[..]), old(finalstate[..]), |patterns.keys| + 1, cells.Length, minid)
    ensures EMPTY in old(finalstate[..]) && WithinKeys(old(cells[..]), patterns.keys) ==> 0 <= minid
    ensures var at := PyIndex(minid, cells.Length);
      ok <==> 0 <= at && old(cells[at]) != []
    ensures ok ==>
      var at := PyIndex(minid, cells.Length);
      var x := old(cells[at])[draw % |old(cells[at])|];
      x in old(cells[at]) &&
      cells[..] == old(cells[..])[at := [x]] && finalstate[..] == old(finalstate[..])[at := x]
    ensures !ok ==> cells[..] == old(cells[..]) && finalstate[..] == old(finalstate[..])
  {
    minid := ScanFirstMin(cells[..], finalstate[..], |patterns.keys| + 1);
    if EMPTY in finalstate[..] && WithinKeys(cells[..], patterns.keys) {
      ScanFinds(cells[..], finalstate[..], patterns.keys, minid);
    }
    var at := if minid < 0 then minid + cells.Length else minid;
    if at < 0 || cells[at] == [] {
      ok := false;
      return;
    }
    var x := cells[at][draw % |cells[at]|];
    finalstate[at] := x;
    cells[at] := [finalstate[at]];
    ok := true;
  }

  /** `validate(patterns, cells[a], cells[b])`: keeps the candidates `j` of
      `cellB` for which some `i` of `cellA` makes every `len(i)`-window of
      `i + j` a catalog key, and reports whether the multiset changed. */
  method Validate(patterns: Dict<string>, cells: array<seq<string>>, a: nat, b: nat) returns (changed: bool)
    requires a < cells.Length && b < cells.Length
    modifies cells
    ensures cells[..] == old(cells[..])[b := Revised(Overlap(patterns), old(cells[a]), old(cells[b]))]
    ensures changed <==> multiset(cells[b]) != multiset(old(cells[b]))
    ensures changed <==> |cells[b]| < |old(cells[b])|
  {
    var cellA, cellB := cells[a], cells[b];
    var newcell := ReviseCell(patterns, cellA, cellB);
    RevisedSpec(Overlap(patterns), cellA, cellB);
    changed := multiset(cellB) != multiset(newcell);
    ghost var c0 := cells[..];
    cells[b] := newcell;
    assert cells[..] == c0[b := newcell];
  }

  /** The double loop of `validate` building `newcell`: every `i` of
      `cellA` is tried for each `j` of `cellB`, with no `break`. */
  method ReviseCell(patterns: Dict<string>, cellA: seq<string>, cellB: seq<string>) returns (newcell: seq<string>)
    ensures newcell == Revised(Overlap(patterns), cellA, cellB)
  {
    ghost var ok := Support(Overlap(patterns), cellA, cellB);
    newcell := [];
    var jj := 0;
    while jj < |cellB|
      invariant jj <= |cellB|
      invariant newcell == Refine(cellB[..jj], ok)
    {
      var j := cellB[jj];
      newcell := KeepIfFits(patterns, cellA, j, newcell);
      assert j in cellB;
      if exists t :: 0 <= t < |cellA| && Allowed(Overlap(patterns), cellA[t], j) {
        var t :| 0 <= t < |cellA| && Allowed(Overlap(patterns), cellA[t], j);
        assert j in ok;
      } else {
        assert j !in ok;
      }
      assert cellB[..jj + 1][..jj] == cellB[..jj];
      jj := jj + 1;
    }
    assert cellB[..jj] == cellB;
  }

  /** The inner loop of `validate`: `j` is appended the first time some `i`
      of `cellA` admits it, unless it is already listed. */
  method KeepIfFits(patterns: Dict<string>, cellA: seq<string>, j: string, before: seq<string>)
    returns (newcell: seq<string>)
    ensures newcell == if (exists t :: 0 <= t < |cellA| && Allowed(Overlap(patterns), cellA[t], j)) && j !in before
      then before + [j] else before
  {
    newcell := before;
    var ii := 0;
    while ii < |cellA|
      invariant ii <= |cellA|
      invariant newcell ==
        if (exists t :: 0 <= t < ii && Allowed(Overlap(patterns), cellA[t], j)) && j !in before
        then before + [j] else before
    {
      var i := cellA[ii];
      var valok := WindowsKnown(patterns, i, j);
      if valok && j !in newcell {
        newcell := newcell + [j];
      }
      ii := ii + 1;
    }
  }

  /** The inner test of `validate`: `countPatternsNoWrap(i + j, len(i))`,
      then the loop over its keys that clears `valok` and breaks at the
      first key missing from the catalog. */
  method WindowsKnown(patterns: Dict<string>, i: string, j: string) returns (valok: bool)
    ensures valok <==> Admissible(patterns, |i|, i, j)
  {
    var checkstr := i + j;
    var newpatterns := GetPatternsNoWrap(checkstr, |i|);
    CountAllSpec(Sized(Chunks(checkstr, |i|), |i|));
    valok := true;
    var t := 0;
    while t < |newpatterns.keys|
      invariant t <= |newpatterns.keys|
      invariant valok <==> forall u :: 0 <= u < t ==> newpatterns.keys[u] in patterns.count
      invariant !valok ==> t > 0
    {
      if newpatterns.keys[t] !in patterns.count {
        valok := false;
        break;
      }
      t := t + 1;
    }
    if valok {
      forall k | k in newpatterns.count ensures k in patterns.count {
        assert k in newpatterns.keys;
      }
    }
  }

  /** `propagate(patterns, cells, pos)`: revise the right neighbour (mod the
      number of cells) from a non-empty cell, and recurse from it while that
      changed it. */
  method Propagate(patterns: Dict<string>, cells: array<seq<string>>, pos: nat)
    requires pos < cells.Length
    modifies cells
    ensures cells[..] == Propagated(Overlap(patterns), old(cells[..]), pos)
    decreases TotalSize(cells[..])
  {
    ghost var c0 := cells[..];
    var nextpos := (pos + 1) % cells.Length;
    var haschanged := false;
    if cells[pos] != [] {
      haschanged := Validate(patterns, cells, pos, nextpos);
    }
    assert haschanged <==> ChangesNext(Overlap(patterns), c0, pos);
    if haschanged {
      PropagatedGo(Overlap(patterns), c0, pos);
      Propagate(patterns, cells, nextpos);
    } else {
      PropagatedStop(Overlap(patterns), c0, pos);
      if c0[pos] != [] {
        AdvanceSame(Overlap(patterns), c0, pos);
      }
    }
  }

  /** One pass of the `WFC` loop: observe, then propagate from the observed
      cell. The scan's cell is collapsed to its candidate `draw mod size`,
      also written to its output slot, and the wave becomes the propagation
      from it; an empty chosen cell makes `randint` fail and nothing
      changes. */
  method Round(patterns: Dict<string>, cells: array<seq<string>>, finalstate: array<string>, draw: nat)
    returns (pos: int, ok: bool)
    requires cells.Length == finalstate.Length && EMPTY in finalstate[..]
    requires WithinKeys(cells[..], patterns.keys)
    requires MarksWithin(finalstate[..], patterns.keys)
    modifies cells, finalstate
    ensures WithinKeys(cells[..], patterns.keys)
    ensures MarksWithin(finalstate[..], patterns.keys)
    ensures 0 <= pos < cells.Length
    ensures IsFirstMin(old(cells[..]), old(finalstate[..]), |patterns.keys| + 1, cells.Length, pos)
    ensures ok <==> old(cells[pos]) != []
    ensures ok ==>
      var x := old(cells[pos])[draw % |old(cells[pos])|];
      finalstate[..] == old(finalstate[..])[pos := x] &&
      cells[..] == Propagated(Overlap(patterns), old(cells[..])[pos := [x]], pos)
    ensures !ok ==> cells[..] == old(cells[..]) && finalstate[..] == old(finalstate[..])
    ensures ok && EMPTY !in patterns.keys ==>
      multiset(finalstate[..])[EMPTY] + 1 == multiset(old(finalstate[..]))[EMPTY]
  {
    ghost var f0, c0 := finalstate[..], cells[..];
    pos, ok := Observe(patterns, cells, finalstate, draw);
    if ok {
      SubseqBounds(c0[pos], patterns.keys);
      SubseqSingleton(finalstate[pos], patterns.keys);
      WithinKeysUpdate(c0, patterns.keys, pos, [finalstate[pos]]);
      MarkOne(f0, finalstate[..], pos, patterns.keys);
      ghost var c1, f1 := cells[..], finalstate[..];
      Propagate(patterns, cells, pos);
      KeepsWithinKeys(Overlap(patterns), c1, pos, patterns.keys);
      assert finalstate[..] == f1;
    } else {
      assert finalstate[..] == f0;
    }
  }

  /** `WFC(data, n, outputCellCount)`, with `draws[r]` for the `randint` of
      round `r` and the printed line returned: count the circular windows,
      fill the wave, mark every slot undecided, observe and propagate while
      a slot is undecided, and join the slots. `slots` and `wave` are the
      final `finalstate` and `cells`: a finished line joins catalog keys,
      and a crash happens on the cell the scan chose, which has no candidate
      left. */
  method WFC(data: string, n: nat, outputCellCount: nat, draws: seq<nat>)
    returns (outcome: Outcome, ghost rounds: nat, ghost slots: seq<string>, ghost wave: seq<seq<string>>)
    ensures rounds <= |draws| && |slots| == |wave| == outputCellCount
    ensures outcome.Done? ==>
      outcome.output == Join(slots) && forall s :: s in slots ==> s in PatternsWrap(data, n).count
    ensures outcome.Done? ==> |outcome.output| == outputCellCount * n
    ensures outcome.Crashed? ==>
      exists q :: 0 <= q < |wave| && wave[q] == [] && IsFirstMin(wave, slots, |PatternsWrap(data, n).keys| + 1, |wave|, q)
    ensures outcome.OutOfDraws? ==> rounds == |draws|
    ensures EMPTY !in PatternsWrap(data, n).keys ==> (outcome.Done? ==> rounds == outputCellCount)
    ensures EMPTY !in PatternsWrap(data, n).keys && outputCellCount <= |draws| ==> !outcome.OutOfDraws?
  {
    var patterns := GetPatternsWrap(data, n);
    var cells := InitializeCells(patterns, outputCellCount);
    InitialWithinKeys(patterns.keys, outputCellCount);
    var marks := AllUndecided(outputCellCount);
    var finalstate := new string[outputCellCount](q requires 0 <= q < outputCellCount => marks[q]);
    assert finalstate[..] == marks;
    var round := 0;
    rounds := 0;
    while EMPTY in finalstate[..] && round < |draws|
      invariant rounds == round <= |draws|
      invariant WithinKeys(cells[..], patterns.keys) && cells.Length == finalstate.Length == outputCellCount
      invariant MarksWithin(finalstate[..], patterns.keys)
      invariant EMPTY !in patterns.keys ==> multiset(finalstate[..])[EMPTY] + round == outputCellCount
      decreases |draws| - round
    {
      var pos, ok := Round(patterns, cells, finalstate, draws[round]);
      if !ok {
        slots, wave := finalstate[..], cells[..];
        assert wave[pos] == [];
        outcome := Crashed;
        return;
      }
      round := round + 1;
      rounds := round;
    }
    slots, wave := finalstate[..], cells[..];
    if EMPTY in finalstate[..] {
      outcome := OutOfDraws;
      return;
    }
    WrapCatalogShape(data, n);
    FilledLength(finalstate[..], patterns.keys, n);
    FilledKeys(slots, patterns.keys);
    outcome := Done(Join(finalstate[..]));
  }
}
