/** What the two 1-D solvers share: the marker of an undecided output slot,
    the initial wave, the choice `observe` makes, the list `validate` leaves in
    the neighbour cell, and the effect of one `propagate` call. */
module Wave1D {
  import opened Lists
  import opened Tally
  import opened Patterns1D

  /** `EMPTY_INDICATOR`: the output slot of a cell not yet observed. */
  const EMPTY: string := "EMPTY-CELL"

  /** How a run of the generator ends: the joined output; `randint`
      failing on an emptied cell (a contradiction, which Python raises as
      ValueError); or the supplied random draws running out before the
      output was full. */
  datatype Outcome = Done(output: string) | Crashed | OutOfDraws

  /** How `validate` decides that candidate `j` may follow candidate `i`:
      the class looks the pair up in its precomputed `constrains` list, the
      free functions recompute the window test against the catalog. */
  datatype Rule = Table(constrains: seq<Pair>) | Overlap(catalog: Dict<string>)

  predicate Allowed(rule: Rule, i: string, j: string) {
    match rule
    case Table(cs) => Pair(i, j) in cs
    case Overlap(cat) => Admissible(cat, |i|, i, j)
  }

  /** The candidates of `b` that some candidate of `a` allows. */
  function Support(rule: Rule, a: seq<string>, b: seq<string>): set<string> {
    set j | j in b && exists i :: i in a && Allowed(rule, i, j)
  }

  /** The list `validate` writes back into `cellB`. */
  function Revised(rule: Rule, a: seq<string>, b: seq<string>): seq<string> {
    Refine(b, Support(rule, a, b))
  }

  /** `initializeCells` / `initCells`: `count` cells, each the key list. */
  function InitialCells(keys: seq<string>, count: nat): (cells: seq<seq<string>>)
    ensures |cells| == count && forall q :: 0 <= q < count ==> cells[q] == keys
  {
    seq(count, _ => keys)
  }

  /** The loop at the start of `generate` / `WFC` appending one
      `EMPTY_INDICATOR` per cell. */
  method AllUndecided(count: nat) returns (slots: seq<string>)
    ensures |slots| == count && multiset(slots)[EMPTY] == count
    ensures forall q :: 0 <= q < count ==> slots[q] == EMPTY
  {
    slots := [];
    var i := 0;
    while i < count
      invariant i <= count
      invariant |slots| == i && multiset(slots)[EMPTY] == i
      invariant forall q :: 0 <= q < i ==> slots[q] == EMPTY
    {
      slots := slots + [EMPTY];
      i := i + 1;
    }
  }

  /** `m` is what the scan of `observe` holds after looking at the first
      `upto` cells: the first undecided cell of strictly smallest size below
      `bound`, or -1 when no undecided cell is below `bound`. */
  ghost predicate IsFirstMin(cells: seq<seq<string>>, marks: seq<string>, bound: nat, upto: nat, m: int)
    requires upto <= |cells| <= |marks|
  {
    if m == -1 then
      forall q :: 0 <= q < upto && marks[q] == EMPTY ==> |cells[q]| >= bound
    else
      && 0 <= m < upto
      && marks[m] == EMPTY
      && |cells[m]| < bound
      && (forall q :: 0 <= q < upto && marks[q] == EMPTY ==> |cells[m]| <= |cells[q]|)
      && (forall q :: 0 <= q < m && marks[q] == EMPTY ==> |cells[m]| < |cells[q]|)
  }

  /** The scan loop of `observe`: starting from `min = bound` and
      `minid = -1`, keep each undecided cell strictly smaller than the best
      so far. */
  method ScanFirstMin(cells: seq<seq<string>>, marks: seq<string>, bound: nat) returns (minid: int)
    requires |cells| <= |marks|
    ensures IsFirstMin(cells, marks, bound, |cells|, minid)
  {
    var min := bound;
    minid := -1;
    var id := 0;
    while id < |cells|
      invariant id <= |cells|
      invariant IsFirstMin(cells, marks, bound, id, minid)
      invariant min == if minid == -1 then bound else |cells[minid]|
    {
      if marks[id] == EMPTY {
        if |cells[id]| < min {
          minid := id;
          min := |cells[id]|;
        }
      }
      id := id + 1;
    }
  }

  /** Every cell is an order-preserving sub-list of the catalog's key list. */
  ghost predicate WithinKeys(cells: seq<seq<string>>, keys: seq<string>) {
    forall q :: 0 <= q < |cells| ==> Subseq(cells[q], keys)
  }

  /** The initial wave lies within the key list. */
  lemma InitialWithinKeys(keys: seq<string>, count: nat)
    ensures WithinKeys(InitialCells(keys, count), keys)
  {
    SubseqRefl(keys);
  }

  /** Replacing one cell by a sub-list of the keys keeps the wave within them. */
  lemma WithinKeysUpdate(cells: seq<seq<string>>, keys: seq<string>, at: nat, c: seq<string>)
    requires WithinKeys(cells, keys) && Subseq(c, keys) && at < |cells|
    ensures WithinKeys(cells[at := c], keys)
  {
  }

  /** While every cell stays within a duplicate-free key list, an undecided
      cell is always found below the bound `len(patterns) + 1`. */
  lemma ScanFinds(cells: seq<seq<string>>, marks: seq<string>, keys: seq<string>, m: int)
    requires |cells| == |marks| && WithinKeys(cells, keys)
    requires IsFirstMin(cells, marks, |keys| + 1, |cells|, m)
    requires EMPTY in marks
    ensures 0 <= m < |cells|
  {
    if m == -1 {
      var q :| 0 <= q < |marks| && marks[q] == EMPTY;
      SubseqBounds(cells[q], keys);
    }
  }

  /** Every slot of `finalstate` is undecided or holds a key. */
  predicate MarksWithin(marks: seq<string>, keys: seq<string>) {
    forall q :: 0 <= q < |marks| ==> marks[q] == EMPTY || marks[q] in keys
  }

  /** Observing an undecided slot writes a key there: every slot stays
      undecided or a key, and when no key is the marker itself one marker
      fewer remains. */
  lemma MarkOne(marks: seq<string>, marks': seq<string>, at: nat, keys: seq<string>)
    requires at < |marks| && marks[at] == EMPTY
    requires |marks'| == |marks| && marks' == marks[at := marks'[at]] && marks'[at] in keys
    requires MarksWithin(marks, keys)
    ensures MarksWithin(marks', keys)
    ensures EMPTY !in keys ==> multiset(marks')[EMPTY] + 1 == multiset(marks)[EMPTY]
  {
  }

  /** Once no slot is undecided, every slot holds a catalog key. */
  lemma FilledKeys(marks: seq<string>, keys: seq<string>)
    requires EMPTY !in marks && MarksWithin(marks, keys)
    ensures forall s :: s in marks ==> s in keys
  {
    forall s | s in marks ensures s in keys {
      var q :| 0 <= q < |marks| && marks[q] == s;
    }
  }

  /** Once no slot is undecided, the joined output has N symbols per slot. */
  lemma FilledLength(marks: seq<string>, keys: seq<string>, n: nat)
    requires EMPTY !in marks
    requires MarksWithin(marks, keys)
    requires forall k :: k in keys ==> |k| == n
    ensures |Join(marks)| == |marks| * n
  {
    forall q | 0 <= q < |marks| ensures |marks[q]| == n {
      assert marks[q] in marks;
    }
    JoinLength(marks, n);
  }

  /** The revised neighbour holds exactly the candidates of `b` allowed after
      some candidate of `a`, once each and in the order of `b`; the change
      flag `Counter(b) != Counter(new)` says exactly that candidates were
      removed; and revising again against the same `a` changes nothing. */
  lemma RevisedSpec(rule: Rule, a: seq<string>, b: seq<string>)
    ensures forall j :: j in Revised(rule, a, b) ==> j in b && exists i :: i in a && Allowed(rule, i, j)
    ensures forall j :: j in b && (exists i :: i in a && Allowed(rule, i, j)) ==> j in Revised(rule, a, b)
    ensures Distinct(Revised(rule, a, b)) && Subseq(Revised(rule, a, b), b)
    ensures multiset(Revised(rule, a, b)) != multiset(b) <==> |Revised(rule, a, b)| < |b|
    ensures Revised(rule, a, Revised(rule, a, b)) == Revised(rule, a, b)
  {
    var r := Revised(rule, a, b);
    RefineSpec(b, Support(rule, a, b));
    RefineChanged(b, Support(rule, a, b));
    RefineFixed(r, Support(rule, a, r));
  }

  /** An unchanged multiset means the neighbour is left exactly as it was. */
  lemma RevisedSame(rule: Rule, a: seq<string>, b: seq<string>)
    requires multiset(Revised(rule, a, b)) == multiset(b)
    ensures Revised(rule, a, b) == b
  {
    RevisedSpec(rule, a, b);
    assert |Revised(rule, a, b)| == |multiset(Revised(rule, a, b))| == |multiset(b)| == |b|;
    SubseqSameLength(Revised(rule, a, b), b);
  }

  /** A change of multiset lowers the total size of the cells. */
  lemma RevisedLowers(rule: Rule, cells: seq<seq<string>>, pos: nat, next: nat)
    requires pos < |cells| && next < |cells|
    requires |Revised(rule, cells[pos], cells[next])| < |cells[next]|
    ensures TotalSize(cells[next := Revised(rule, cells[pos], cells[next])]) < TotalSize(cells)
  {
    TotalSizeUpdate(cells, next, Revised(rule, cells[pos], cells[next]));
  }

  /** The class checks `[i, j] in constrains`; with the table built by
      `initConstrains` from the same catalog this keeps exactly the candidates
      the free function's window test keeps. */
  lemma SupportAgree(cat: Dict<string>, n: nat, a: seq<string>, b: seq<string>)
    requires WellFormed(cat)
    requires forall i :: i in a ==> i in cat.keys && |i| == n
    requires forall j :: j in b ==> j in cat.keys
    ensures Support(Table(AllPairs(cat, n, cat.keys, cat.keys)), a, b) == Support(Overlap(cat), a, b)
  {
    AllPairsSpec(cat, n, cat.keys, cat.keys);
  }

  /** Sum of the sizes of all cells: the measure every propagation lowers. */
  function TotalSize(cells: seq<seq<string>>): nat
    decreases |cells|
  {
    if cells == [] then 0 else TotalSize(cells[..|cells| - 1]) + |cells[|cells| - 1]|
  }

  lemma {:induction false} TotalSizeUpdate(cells: seq<seq<string>>, q: nat, c: seq<string>)
    requires q < |cells|
    ensures TotalSize(cells[q := c]) == TotalSize(cells) - |cells[q]| + |c|
    decreases |cells|
  {
    var last := |cells| - 1;
    if q < last {
      TotalSizeUpdate(cells[..last], q, c);
      assert cells[q := c][..last] == cells[..last][q := c];
    } else {
      assert cells[q := c][..last] == cells[..last];
    }
  }

  /** `(p + t) mod len`: the cell `t` steps to the right of `p` on the ring. */
  function Ahead(p: nat, t: nat, len: nat): nat
    requires 0 < len
  {
    (p + t) % len
  }

  /** The cells once `cellB` is revised by `validate` from `pos`. */
  function Advance(rule: Rule, cells: seq<seq<string>>, pos: nat): seq<seq<string>>
    requires pos < |cells|
  {
    var next := (pos + 1) % |cells|;
    cells[next := Revised(rule, cells[pos], cells[next])]
  }

  /** Whether validating from `pos` changes the right neighbour (by
      `RevisedSpec`, the same as the multiset test of `validate`). */
  predicate ChangesNext(rule: Rule, cells: seq<seq<string>>, pos: nat)
    requires pos < |cells|
  {
    var next := (pos + 1) % |cells|;
    cells[pos] != [] && |Revised(rule, cells[pos], cells[next])| < |cells[next]|
  }

  /** The cells after `propagate(pos)`: validate the right neighbour from
      `pos` (when `cells[pos]` is not empty) and continue from the neighbour
      while that changed it. An unchanged neighbour is written back as it
      was, so the stopping step leaves the cells as they are. Propagation
      never adds a candidate, and it removes some exactly when the first
      validation does. */
  function Propagated(rule: Rule, cells: seq<seq<string>>, pos: nat): (r: seq<seq<string>>)
    requires pos < |cells|
    ensures TotalSize(r) <= TotalSize(cells)
    ensures TotalSize(r) < TotalSize(cells) <==> ChangesNext(rule, cells, pos)
    decreases TotalSize(cells)
  {
    if ChangesNext(rule, cells, pos) then
      RevisedLowers(rule, cells, pos, (pos + 1) % |cells|);
      Propagated(rule, Advance(rule, cells, pos), (pos + 1) % |cells|)
    else cells
  }

  /** The number of neighbours a propagation from `pos` changed. */
  function Steps(rule: Rule, cells: seq<seq<string>>, pos: nat): nat
    requires pos < |cells|
    decreases TotalSize(cells)
  {
    if ChangesNext(rule, cells, pos) then
      RevisedLowers(rule, cells, pos, (pos + 1) % |cells|);
      Steps(rule, Advance(rule, cells, pos), (pos + 1) % |cells|) + 1
    else 0
  }

  /** A validation that removes nothing leaves the cells as they are. */
  lemma AdvanceSame(rule: Rule, cells: seq<seq<string>>, pos: nat)
    requires pos < |cells| && cells[pos] != [] && !ChangesNext(rule, cells, pos)
    ensures Advance(rule, cells, pos) == cells
  {
    var next := (pos + 1) % |cells|;
    RevisedSpec(rule, cells[pos], cells[next]);
    SubseqBounds(Revised(rule, cells[pos], cells[next]), cells[next]);
    SubseqSameLength(Revised(rule, cells[pos], cells[next]), cells[next]);
  }

  /** Propagation keeps the number of cells. */
  lemma {:induction false} PropagatedLength(rule: Rule, cells: seq<seq<string>>, pos: nat)
    requires pos < |cells|
    ensures |Propagated(rule, cells, pos)| == |cells|
    decreases TotalSize(cells)
  {
    if ChangesNext(rule, cells, pos) {
      RevisedLowers(rule, cells, pos, (pos + 1) % |cells|);
    }
    if ChangesNext(rule, cells, pos) {
      var next := (pos + 1) % |cells|;
      PropagatedLength(rule, Advance(rule, cells, pos), next);
    }
  }

  /** Only the cells `pos+1, pos+2, …` (mod len), up to the number of
      changed neighbours, can differ after propagation. */
  lemma {:induction false} PropagatedLocal(rule: Rule, cells: seq<seq<string>>, pos: nat)
    requires pos < |cells|
    ensures |Propagated(rule, cells, pos)| == |cells|
    ensures forall q :: 0 <= q < |cells| && Propagated(rule, cells, pos)[q] != cells[q] ==>
      exists t :: 1 <= t <= Steps(rule, cells, pos) && q == Ahead(pos, t, |cells|)
    decreases TotalSize(cells)
  {
    PropagatedLength(rule, cells, pos);
    if ChangesNext(rule, cells, pos) {
      RevisedLowers(rule, cells, pos, (pos + 1) % |cells|);
    }
    var len := |cells|;
    var next := (pos + 1) % len;
    if ChangesNext(rule, cells, pos) {
      var c1 := Advance(rule, cells, pos);
      PropagatedLocal(rule, c1, next);
      var r := Propagated(rule, c1, next);
      var st := Steps(rule, c1, next);
      forall q | 0 <= q < len && r[q] != cells[q]
        ensures exists t :: 1 <= t <= st + 1 && q == Ahead(pos, t, len)
      {
        if q == next {
          assert q == Ahead(pos, 1, len);
        } else {
          assert r[q] != c1[q];
          AheadLater(pos, next, st, len, q);
        }
      }
    }
  }

  /** A cell reached `t` steps after `pos + 1` is reached `t + 1` steps
      after `pos`. */
  lemma AheadLater(pos: nat, next: nat, st: nat, len: nat, q: int)
    requires 0 < len && next == (pos + 1) % len
    requires exists t :: 1 <= t <= st && q == Ahead(next, t, len)
    ensures exists t :: 1 <= t <= st + 1 && q == Ahead(pos, t, len)
  {
    var t :| 1 <= t <= st && q == Ahead(next, t, len);
    AheadStep(pos, t, len);
  }

  /** The step where propagation stops: nothing changes. */
  lemma PropagatedStop(rule: Rule, cells: seq<seq<string>>, pos: nat)
    requires pos < |cells| && !ChangesNext(rule, cells, pos)
    ensures Propagated(rule, cells, pos) == cells && Steps(rule, cells, pos) == 0
  {
  }

  /** A step where the neighbour shrank: propagation goes on from it. */
  lemma PropagatedGo(rule: Rule, cells: seq<seq<string>>, pos: nat)
    requires pos < |cells| && ChangesNext(rule, cells, pos)
    ensures TotalSize(Advance(rule, cells, pos)) < TotalSize(cells)
    ensures Propagated(rule, cells, pos) == Propagated(rule, Advance(rule, cells, pos), (pos + 1) % |cells|)
    ensures Steps(rule, cells, pos) == Steps(rule, Advance(rule, cells, pos), (pos + 1) % |cells|) + 1
  {
    RevisedLowers(rule, cells, pos, (pos + 1) % |cells|);
  }

  /** Going one step right, then `t` more, is going `t + 1` steps. */
  lemma AheadStep(p: nat, t: nat, len: nat)
    requires 0 < len
    ensures Ahead((p + 1) % len, t, len) == Ahead(p, t + 1, len)
  {
    ModShift(p + 1, t, len);
  }

  /** Propagation stops at the first neighbour it leaves unchanged: after it,
      the arc from the last visited cell to its right neighbour is stable
      (that cell is empty, or validating the neighbour again removes
      nothing). */
  lemma {:induction false} PropagatedStable(rule: Rule, cells: seq<seq<string>>, pos: nat)
    requires pos < |cells|
    ensures |Propagated(rule, cells, pos)| == |cells|
    ensures !ChangesNext(rule, Propagated(rule, cells, pos), Ahead(pos, Steps(rule, cells, pos), |cells|))
    decreases TotalSize(cells)
  {
    PropagatedLength(rule, cells, pos);
    var len := |cells|;
    var r, e := Propagated(rule, cells, pos), Ahead(pos, Steps(rule, cells, pos), len);
    if ChangesNext(rule, cells, pos) {
      var next := (pos + 1) % len;
      var c1 := Advance(rule, cells, pos);
      PropagatedGo(rule, cells, pos);
      PropagatedStable(rule, c1, next);
      AheadStep(pos, Steps(rule, c1, next), len);
      assert r == Propagated(rule, c1, next) && e == Ahead(next, Steps(rule, c1, next), len);
    } else {
      PropagatedStop(rule, cells, pos);
      assert r == cells && e == pos;
    }
  }

  /** Every cell afterwards is a sub-list of the cell before: propagation
      only removes candidates. */
  lemma {:induction false} PropagatedShrinks(rule: Rule, cells: seq<seq<string>>, pos: nat)
    requires pos < |cells|
    ensures |Propagated(rule, cells, pos)| == |cells|
    ensures forall q :: 0 <= q < |cells| ==> Subseq(Propagated(rule, cells, pos)[q], cells[q])
    decreases TotalSize(cells)
  {
    PropagatedLength(rule, cells, pos);
    if ChangesNext(rule, cells, pos) {
      var next := (pos + 1) % |cells|;
      PropagatedGo(rule, cells, pos);
      var c1 := Advance(rule, cells, pos);
      PropagatedShrinks(rule, c1, next);
      AdvanceShrinks(rule, cells, pos);
      var r := Propagated(rule, c1, next);
      forall q | 0 <= q < |cells| ensures Subseq(r[q], cells[q]) {
        SubseqTrans(r[q], c1[q], cells[q]);
      }
    } else {
      PropagatedStop(rule, cells, pos);
      forall q | 0 <= q < |cells| ensures Subseq(cells[q], cells[q]) {
        SubseqRefl(cells[q]);
      }
    }
  }

  /** One validation only shrinks the neighbour. */
  lemma AdvanceShrinks(rule: Rule, cells: seq<seq<string>>, pos: nat)
    requires pos < |cells|
    ensures |Advance(rule, cells, pos)| == |cells|
    ensures forall q :: 0 <= q < |cells| ==> Subseq(Advance(rule, cells, pos)[q], cells[q])
  {
    var next := (pos + 1) % |cells|;
    var c1 := Advance(rule, cells, pos);
    forall q | 0 <= q < |cells| ensures Subseq(c1[q], cells[q]) {
      if q == next {
        RevisedSpec(rule, cells[pos], cells[next]);
      } else {
        SubseqRefl(cells[q]);
      }
    }
  }

  /** Propagation keeps every cell within the catalog's key list. */
  lemma KeepsWithinKeys(rule: Rule, cells: seq<seq<string>>, pos: nat, keys: seq<string>)
    requires pos < |cells| && WithinKeys(cells, keys)
    ensures WithinKeys(Propagated(rule, cells, pos), keys)
  {
    var r := Propagated(rule, cells, pos);
    PropagatedShrinks(rule, cells, pos);
    forall q | 0 <= q < |r| ensures Subseq(r[q], keys) {
      SubseqTrans(r[q], cells[q], keys);
    }
  }
}
