/** What the two 2-D solvers share: the adjacency rule `validate` applies,
    the list it leaves in the neighbour cell, and how a revision of one
    cell changes the grid. */
module Wave2D {
  import opened Lists
  import opened Grid2D
  import opened Patterns2D

  /** How `validate` decides that candidate `j` of the neighbour may stand at
      offset `d` from candidate `i` of the cell: the class looks
      `[i, j, dir]` up in its `constrains` list; the older free function
      crops `patterns[j]` followed by `patterns[i]` and tests every crop
      against the catalog. */
  datatype Rule2D = Listed(constrains: seq<Triple>) | Tiled(catalog: seq<Image>)

  predicate Allowed2D(rule: Rule2D, i: Image, j: Image, d: Dir) {
    match rule
    case Listed(cs) => Triple(i, j, d) in cs
    case Tiled(cat) => Fits(cat, j, i, d)
  }

  /** The candidates of `b` that some candidate of `a` allows at offset `d`. */
  function Support2D(rule: Rule2D, a: seq<Image>, b: seq<Image>, d: Dir): set<Image> {
    set j | j in b && exists i :: i in a && Allowed2D(rule, i, j, d)
  }

  /** The list `validate` writes back into `cellB`. */
  function Revised2D(rule: Rule2D, a: seq<Image>, b: seq<Image>, d: Dir): seq<Image> {
    Refine(b, Support2D(rule, a, b, d))
  }

  /** The grid after `validate(cells[p], cells[q], d)`. */
  function Revise(rule: Rule2D, g: seq<seq<seq<Image>>>, p: Pos, q: Pos, d: Dir): (r: seq<seq<seq<Image>>>)
    requires InGrid(g, p) && InGrid(g, q)
    ensures |r| == |g| && forall x :: 0 <= x < |g| ==> |r[x]| == |g[x]|
  {
    SetCell(g, q, Revised2D(rule, g[p.x][p.y], g[q.x][q.y], d))
  }

  /** The revised neighbour holds exactly the candidates of `b` allowed at
      offset `d` from some candidate of `a`, once each and in the order of
      `b`; the change flag `Counter(b) != Counter(new)` says exactly that
      candidates were removed; and revising again changes nothing. */
  lemma RevisedSpec2D(rule: Rule2D, a: seq<Image>, b: seq<Image>, d: Dir)
    ensures forall j :: j in Revised2D(rule, a, b, d) ==> j in b && exists i :: i in a && Allowed2D(rule, i, j, d)
    ensures forall j :: j in b && (exists i :: i in a && Allowed2D(rule, i, j, d)) ==> j in Revised2D(rule, a, b, d)
    ensures Distinct(Revised2D(rule, a, b, d)) && Subseq(Revised2D(rule, a, b, d), b)
    ensures multiset(Revised2D(rule, a, b, d)) != multiset(b) <==> |Revised2D(rule, a, b, d)| < |b|
    ensures Revised2D(rule, a, Revised2D(rule, a, b, d), d) == Revised2D(rule, a, b, d)
  {
    var r := Revised2D(rule, a, b, d);
    RefineSpec(b, Support2D(rule, a, b, d));
    RefineChanged(b, Support2D(rule, a, b, d));
    RefineFixed(r, Support2D(rule, a, r, d));
  }

  /** An unchanged multiset means the neighbour is left exactly as it was. */
  lemma RevisedSame2D(rule: Rule2D, a: seq<Image>, b: seq<Image>, d: Dir)
    requires multiset(Revised2D(rule, a, b, d)) == multiset(b)
    ensures Revised2D(rule, a, b, d) == b
  {
    RevisedSpec2D(rule, a, b, d);
    assert |Revised2D(rule, a, b, d)| == |multiset(Revised2D(rule, a, b, d))| == |multiset(b)| == |b|;
    SubseqSameLength(Revised2D(rule, a, b, d), b);
  }

  /** A revision only shrinks the grid; it keeps the grid when it removes
      nothing and lowers the total number of candidates when it does. */
  lemma ReviseShrinks(rule: Rule2D, g: seq<seq<seq<Image>>>, p: Pos, q: Pos, d: Dir)
    requires InGrid(g, p) && InGrid(g, q)
    ensures Shrunk(g, Revise(rule, g, p, q, d))
    ensures |Revised2D(rule, g[p.x][p.y], g[q.x][q.y], d)| < |g[q.x][q.y]| <==>
      GridSize(Revise(rule, g, p, q, d)) < GridSize(g)
    ensures |Revised2D(rule, g[p.x][p.y], g[q.x][q.y], d)| == |g[q.x][q.y]| ==>
      Revise(rule, g, p, q, d) == g
  {
    var c := Revised2D(rule, g[p.x][p.y], g[q.x][q.y], d);
    RevisedSpec2D(rule, g[p.x][p.y], g[q.x][q.y], d);
    ShrunkSet(g, q, c);
    GridSizeUpdate(g, q, c);
    SubseqBounds(c, g[q.x][q.y]);
    if |c| == |g[q.x][q.y]| {
      SubseqSameLength(c, g[q.x][q.y]);
      assert g[q.x][q.y := c] == g[q.x];
    }
  }

  /** A revision keeps a shrunk, square grid within the keys shrunk, square
      and within the keys. */
  lemma ReviseKeeps(rule: Rule2D, g0: seq<seq<seq<Image>>>, g: seq<seq<seq<Image>>>, n: nat,
                    keys: seq<Image>, p: Pos, q: Pos, d: Dir)
    requires Shrunk(g0, g) && Square(g, n) && WithinKeys2D(g, keys) && InGrid(g, p) && InGrid(g, q)
    ensures Shrunk(g0, Revise(rule, g, p, q, d)) && Square(Revise(rule, g, p, q, d), n)
    ensures WithinKeys2D(Revise(rule, g, p, q, d), keys)
  {
    ReviseShrinks(rule, g, p, q, d);
    ShrunkTrans(g0, g, Revise(rule, g, p, q, d));
    ShrunkWithin(g, Revise(rule, g, p, q, d), keys);
  }

  /** The two files read the catalog in opposite orders: the older one keeps
      `j` beside `i` when `j` followed by `i` fits, the class when `[i, j,
      dir]` is listed, that is when `i` followed by `j` fits. So the older
      rule with the roles of the two keys swapped is the class's table. */
  lemma OrderSwapped(cat: seq<Image>, i: Image, j: Image, d: Dir)
    requires i in cat && j in cat && d in Directions
    ensures Allowed2D(Tiled(cat), j, i, d) <==> Allowed2D(Listed(AllTriples(cat, cat, cat)), i, j, d)
  {
    AllTriplesSpec(cat, cat, cat);
  }

  /** With the class's table, the neighbour on the left is revised by the
      same test as the neighbour on the right, and the one above by the
      same test as the one below. */
  lemma MirroredSupport(cat: seq<Image>, a: seq<Image>, b: seq<Image>)
    ensures Support2D(Listed(AllTriples(cat, cat, cat)), a, b, Dir(-1, 0)) ==
      Support2D(Listed(AllTriples(cat, cat, cat)), a, b, Dir(1, 0))
    ensures Support2D(Listed(AllTriples(cat, cat, cat)), a, b, Dir(0, -1)) ==
      Support2D(Listed(AllTriples(cat, cat, cat)), a, b, Dir(0, 1))
  {
    forall i, j {
      MirroredTriples(cat, cat, cat, i, j);
    }
  }
  /** Every candidate of `b` has a support in `a`: some candidate of `a`
      allows it at offset `d`. */
  ghost predicate Supported(rule: Rule2D, a: seq<Image>, b: seq<Image>, d: Dir) {
    forall j :: j in b ==> exists i :: i in a && Allowed2D(rule, i, j, d)
  }

  /** A cell list is a fixed point of `validate` exactly when it repeats no
      candidate and each of its candidates has a support: the two
      descriptions of a consistent arc agree. */
  lemma FixedPointSupported(rule: Rule2D, a: seq<Image>, b: seq<Image>, d: Dir)
    ensures Revised2D(rule, a, b, d) == b <==> Distinct(b) && Supported(rule, a, b, d)
  {
    RefineSpec(b, Support2D(rule, a, b, d));
    if Distinct(b) && Supported(rule, a, b, d) {
      RefineFixed(b, Support2D(rule, a, b, d));
    }
  }

  /** The arc from the cell at `p` to the cell at `q`, offset `d`, is
      consistent: `p` has no candidate left, or the list of `q` repeats no
      candidate and each of its candidates has a support in `p`, so that
      revising `q` from `p` again would leave it as it is. */
  ghost predicate ArcHolds(rule: Rule2D, g: seq<seq<seq<Image>>>, p: Pos, q: Pos, d: Dir) {
    && InGrid(g, p) && InGrid(g, q)
    && (g[p.x][p.y] != [] ==> Distinct(g[q.x][q.y]) && Supported(rule, g[p.x][p.y], g[q.x][q.y], d))
  }

  /** A consistent arc stays consistent while its target shrinks and its
      source stays as it was. */
  lemma ArcShrunk(rule: Rule2D, g0: seq<seq<seq<Image>>>, g1: seq<seq<seq<Image>>>, p: Pos, q: Pos, d: Dir)
    requires ArcHolds(rule, g0, p, q, d) && Shrunk(g0, g1) && g1[p.x][p.y] == g0[p.x][p.y]
    ensures ArcHolds(rule, g1, p, q, d)
  {
    if g0[p.x][p.y] != [] {
      SubseqDistinct(g1[q.x][q.y], g0[q.x][q.y]);
      SubseqBounds(g1[q.x][q.y], g0[q.x][q.y]);
    }
  }

  /** The cell list `validate` writes back makes the arc consistent. */
  lemma RevisedSupported(rule: Rule2D, a: seq<Image>, b: seq<Image>, d: Dir)
    ensures Distinct(Revised2D(rule, a, b, d)) && Supported(rule, a, Revised2D(rule, a, b, d), d)
  {
    RevisedSpec2D(rule, a, b, d);
  }

  /** A revision that removes nothing finds the arc already consistent. */
  lemma ArcKept(rule: Rule2D, g: seq<seq<seq<Image>>>, p: Pos, q: Pos, d: Dir)
    requires InGrid(g, p) && InGrid(g, q)
    requires |Revised2D(rule, g[p.x][p.y], g[q.x][q.y], d)| == |g[q.x][q.y]|
    ensures ArcHolds(rule, g, p, q, d)
  {
    RevisedSpec2D(rule, g[p.x][p.y], g[q.x][q.y], d);
    SubseqSameLength(Revised2D(rule, g[p.x][p.y], g[q.x][q.y], d), g[q.x][q.y]);
    FixedPointSupported(rule, g[p.x][p.y], g[q.x][q.y], d);
  }

  /** Revising along a consistent arc leaves the grid as it is: the grid is a
      fixed point of that revision. */
  lemma ReviseHeld(rule: Rule2D, g: seq<seq<seq<Image>>>, p: Pos, q: Pos, d: Dir)
    requires ArcHolds(rule, g, p, q, d) && g[p.x][p.y] != []
    ensures Revise(rule, g, p, q, d) == g
  {
    FixedPointSupported(rule, g[p.x][p.y], g[q.x][q.y], d);
    assert g[q.x][q.y := g[q.x][q.y]] == g[q.x];
  }

  /** How the solvers reach the neighbours of a cell: the class steps only
      inside the grid (`cellsDirs`), the older functions step in all four
      directions around the torus. */
  datatype Topology = Bounded | Torus

  /** The offsets propagation follows out of the cell at `c` of an `n` by
      `n` grid. */
  function Offsets(top: Topology, c: Pos, n: nat): seq<Dir> {
    match top
    case Bounded => CellsDirs(c, n, n)
    case Torus => Directions
  }

  /** Every arc out of the cell at `c` holds: propagation from `c` has
      reached its fixed point. */
  ghost predicate Settled(rule: Rule2D, top: Topology, g: seq<seq<seq<Image>>>, c: Pos, n: nat) {
    0 < n && forall d :: d in Offsets(top, c, n) ==> ArcHolds(rule, g, c, Neighbour(c, d, n), d)
  }

  /** Both grids are `n` by `n` and every cell of `g` that differs from
      `base` is settled: whatever propagation changed it has propagated
      from it as well. */
  ghost predicate SettledSince(rule: Rule2D, top: Topology, base: seq<seq<seq<Image>>>, g: seq<seq<seq<Image>>>,
                               n: nat) {
    && Square(base, n) && Square(g, n)
    && forall c :: OnGrid(c, n) && g[c.x][c.y] != base[c.x][c.y] ==> Settled(rule, top, g, c, n)
  }

  /** A settled cell stays settled while the grid shrinks around it. */
  lemma SettledShrunk(rule: Rule2D, top: Topology, g0: seq<seq<seq<Image>>>, g1: seq<seq<seq<Image>>>,
                      c: Pos, n: nat)
    requires Settled(rule, top, g0, c, n) && Square(g0, n) && OnGrid(c, n)
    requires Shrunk(g0, g1) && g1[c.x][c.y] == g0[c.x][c.y]
    ensures Settled(rule, top, g1, c, n)
  {
    forall d | d in Offsets(top, c, n) ensures ArcHolds(rule, g1, c, Neighbour(c, d, n), d) {
      ArcShrunk(rule, g0, g1, c, Neighbour(c, d, n), d);
    }
  }

  /** Settled changes compose: a shrink whose changes are settled, after a
      grid whose changes from `base` are settled, leaves every change from
      `base` settled. */
  lemma SettledSinceTrans(rule: Rule2D, top: Topology, base: seq<seq<seq<Image>>>, g0: seq<seq<seq<Image>>>,
                          g1: seq<seq<seq<Image>>>, n: nat)
    requires SettledSince(rule, top, base, g0, n) && Shrunk(g0, g1) && SettledSince(rule, top, g0, g1, n)
    ensures SettledSince(rule, top, base, g1, n)
  {
    forall c | OnGrid(c, n) && g1[c.x][c.y] != base[c.x][c.y] ensures Settled(rule, top, g1, c, n) {
      if g1[c.x][c.y] == g0[c.x][c.y] {
        SettledShrunk(rule, top, g0, g1, c, n);
      }
    }
  }

  /** When the cell at `p` was set to `v` and then propagated from until `p`
      and every change are settled, every change from the grid before the
      assignment is settled too. */
  lemma SettledSinceSet(rule: Rule2D, top: Topology, g: seq<seq<seq<Image>>>, p: Pos, v: seq<Image>,
                        g1: seq<seq<seq<Image>>>, n: nat)
    requires InGrid(g, p) && SettledSince(rule, top, SetCell(g, p, v), g1, n) && Settled(rule, top, g1, p, n)
    ensures SettledSince(rule, top, g, g1, n)
  {
    assert Square(g, n) by {
      assert forall x :: 0 <= x < |g| ==> |g[x]| == |SetCell(g, p, v)[x]|;
    }
  }

  /** A cell is settled exactly when, if it has a candidate, revising each
      of its neighbours from it removes nothing: the fixed point of the
      propagation. */
  lemma SettledIsFixedPoint(rule: Rule2D, top: Topology, g: seq<seq<seq<Image>>>, c: Pos, n: nat)
    requires 0 < n && Square(g, n) && OnGrid(c, n)
    ensures Settled(rule, top, g, c, n) <==>
      forall d :: d in Offsets(top, c, n) && g[c.x][c.y] != [] ==>
        var q := Neighbour(c, d, n);
        Revised2D(rule, g[c.x][c.y], g[q.x][q.y], d) == g[q.x][q.y]
  {
    forall d | d in Offsets(top, c, n)
      ensures var q := Neighbour(c, d, n);
        ArcHolds(rule, g, c, q, d) <==> (g[c.x][c.y] != [] ==> Revised2D(rule, g[c.x][c.y], g[q.x][q.y], d) == g[q.x][q.y])
    {
      ArcIsFixed(rule, g, c, Neighbour(c, d, n), d);
    }
  }

  /** One arc holds exactly when revising its target removes nothing. */
  lemma ArcIsFixed(rule: Rule2D, g: seq<seq<seq<Image>>>, p: Pos, q: Pos, d: Dir)
    requires InGrid(g, p) && InGrid(g, q)
    ensures ArcHolds(rule, g, p, q, d) <==>
      (g[p.x][p.y] != [] ==> Revised2D(rule, g[p.x][p.y], g[q.x][q.y], d) == g[q.x][q.y])
  {
    FixedPointSupported(rule, g[p.x][p.y], g[q.x][q.y], d);
  }

  /** The arcs out of `p` along each offset of `ds` hold. */
  ghost predicate ArcsAlong(rule: Rule2D, g: seq<seq<seq<Image>>>, p: Pos, ds: seq<Dir>, n: nat) {
    0 < n && forall d :: d in ds ==> ArcHolds(rule, g, p, Neighbour(p, d, n), d)
  }

  /** One more propagation on the torus keeps the arcs out of `p` already
      checked, given the arc along `d` that it establishes: a target that
      shrank only helps, and if `p` itself shrank it is settled anyway. */
  lemma ArcsAlongStep(rule: Rule2D, g0: seq<seq<seq<Image>>>, g1: seq<seq<seq<Image>>>, p: Pos, ds: seq<Dir>,
                      d: Dir, n: nat)
    requires ArcsAlong(rule, g0, p, ds, n) && OnGrid(p, n) && forall e :: e in ds ==> e in Directions
    requires Shrunk(g0, g1) && SettledSince(rule, Torus, g0, g1, n)
    requires ArcHolds(rule, g1, p, Neighbour(p, d, n), d)
    ensures ArcsAlong(rule, g1, p, ds + [d], n)
  {
    forall e | e in ds + [d] ensures ArcHolds(rule, g1, p, Neighbour(p, e, n), e) {
      if e != d {
        if g1[p.x][p.y] == g0[p.x][p.y] {
          ArcShrunk(rule, g0, g1, p, Neighbour(p, e, n), e);
        } else {
          assert Settled(rule, Torus, g1, p, n) && e in Offsets(Torus, p, n);
        }
      }
    }
  }

  /** The arcs along the four directions are the torus arcs of `p`. */
  lemma ArcsAlongSettled(rule: Rule2D, g: seq<seq<seq<Image>>>, p: Pos, n: nat)
    requires ArcsAlong(rule, g, p, [] + [Dir(1, 0)] + [Dir(-1, 0)] + [Dir(0, 1)] + [Dir(0, -1)], n)
    ensures Settled(rule, Torus, g, p, n)
  {
    assert [] + [Dir(1, 0)] + [Dir(-1, 0)] + [Dir(0, 1)] + [Dir(0, -1)] == Directions;
  }

  /** `propagate` after a revision from `p` that removed something: the
      revised neighbour `q` was settled by the recursive calls, so the arc
      from `p` to `q` holds at the end, and every cell that changed since
      before the revision is settled. */
  lemma ArcAfterPropagation(rule: Rule2D, g: seq<seq<seq<Image>>>, g1: seq<seq<seq<Image>>>,
                            g2: seq<seq<seq<Image>>>, p: Pos, q: Pos, d: Dir, n: nat)
    requires Square(g, n) && OnGrid(p, n) && q == Neighbour(p, d, n) && d in Directions && g[p.x][p.y] != []
    requires g1 == SetCell(g, q, Revised2D(rule, g[p.x][p.y], g[q.x][q.y], d))
    requires Shrunk(g1, g2) && Settled(rule, Torus, g2, q, n) && SettledSince(rule, Torus, g1, g2, n)
    ensures ArcHolds(rule, g2, p, q, d) && SettledSince(rule, Torus, g, g2, n)
  {
    SettledSinceSet(rule, Torus, g, q, Revised2D(rule, g[p.x][p.y], g[q.x][q.y], d), g2, n);
    if p == q {
      assert Neighbour(q, d, n) == q && d in Offsets(Torus, q, n);
    } else {
      RevisedSupported(rule, g[p.x][p.y], g[q.x][q.y], d);
      assert g1[p.x][p.y] == g[p.x][p.y];
      assert ArcHolds(rule, g1, p, q, d);
      if g2[p.x][p.y] == g1[p.x][p.y] {
        ArcShrunk(rule, g1, g2, p, q, d);
      } else {
        assert Settled(rule, Torus, g2, p, n) && d in Offsets(Torus, p, n);
      }
    }
  }

  /** No candidate of the cell at `p` allows `j` at offset `d`. */
  ghost predicate Unsupported(rule: Rule2D, g: seq<seq<seq<Image>>>, p: Pos, j: Image, d: Dir) {
    InGrid(g, p) && forall i :: i in g[p.x][p.y] ==> !Allowed2D(rule, i, j, d)
  }

  /** Removing `j` from the cell at `q` is forced in `g`: some cell `p`
      whose propagation reaches `q` along `d` has no candidate left that
      allows `j` there. */
  ghost predicate RemovalJustified(rule: Rule2D, top: Topology, g: seq<seq<seq<Image>>>, q: Pos, j: Image, n: nat) {
    0 < n && exists p, d :: OnGrid(p, n) && d in Offsets(top, p, n) && q == Neighbour(p, d, n) && Unsupported(rule, g, p, j, d)
  }

  /** Every candidate removed between `base` and `g` lacks support in `g`
      from some cell whose propagation reaches it. Support is judged in the
      final grid, so this alone does not exclude removing a candidate that
      was supported when it went; `KeepsConsistent` below does. */
  ghost predicate Justified(rule: Rule2D, top: Topology, base: seq<seq<seq<Image>>>, g: seq<seq<seq<Image>>>, n: nat) {
    && Square(base, n) && Square(g, n)
    && forall q, j :: OnGrid(q, n) && j in base[q.x][q.y] && j !in g[q.x][q.y] ==> RemovalJustified(rule, top, g, q, j, n)
  }

  /** Nothing removed, nothing to justify. */
  lemma JustifiedRefl(rule: Rule2D, top: Topology, g: seq<seq<seq<Image>>>, n: nat)
    requires Square(g, n)
    ensures Justified(rule, top, g, g, n)
  {
  }

  /** A candidate without support keeps lacking it while the grid shrinks. */
  lemma UnsupportedShrunk(rule: Rule2D, g0: seq<seq<seq<Image>>>, g1: seq<seq<seq<Image>>>, p: Pos, j: Image, d: Dir)
    requires Unsupported(rule, g0, p, j, d) && Shrunk(g0, g1)
    ensures Unsupported(rule, g1, p, j, d)
  {
    SubseqBounds(g1[p.x][p.y], g0[p.x][p.y]);
  }

  /** Justified removals compose across successive shrinks: support only
      shrinks, so what was forced out stays forced out. */
  lemma JustifiedTrans(rule: Rule2D, top: Topology, g0: seq<seq<seq<Image>>>, g1: seq<seq<seq<Image>>>,
                       g2: seq<seq<seq<Image>>>, n: nat)
    requires Justified(rule, top, g0, g1, n) && Justified(rule, top, g1, g2, n) && Shrunk(g1, g2)
    ensures Justified(rule, top, g0, g2, n)
  {
    forall q, j | OnGrid(q, n) && j in g0[q.x][q.y] && j !in g2[q.x][q.y]
      ensures RemovalJustified(rule, top, g2, q, j, n)
    {
      if j !in g1[q.x][q.y] {
        var p, d :| OnGrid(p, n) && d in Offsets(top, p, n) && q == Neighbour(p, d, n) && Unsupported(rule, g1, p, j, d);
        UnsupportedShrunk(rule, g1, g2, p, j, d);
      }
    }
  }

  /** One `validate` from the cell at `p` along an offset its propagation
      follows removes only candidates that `p` does not support. */
  lemma ReviseJustified(rule: Rule2D, top: Topology, g: seq<seq<seq<Image>>>, p: Pos, d: Dir, n: nat)
    requires Square(g, n) && OnGrid(p, n) && d in Offsets(top, p, n)
    ensures Justified(rule, top, g, Revise(rule, g, p, Neighbour(p, d, n), d), n)
  {
    var q := Neighbour(p, d, n);
    var r := Revise(rule, g, p, q, d);
    ReviseShrinks(rule, g, p, q, d);
    RevisedSpec2D(rule, g[p.x][p.y], g[q.x][q.y], d);
    forall c, j | OnGrid(c, n) && j in g[c.x][c.y] && j !in r[c.x][c.y]
      ensures RemovalJustified(rule, top, r, c, j, n)
    {
      assert c == q;
      assert Unsupported(rule, g, p, j, d);
      UnsupportedShrunk(rule, g, r, p, j, d);
    }
  }

  /** `h` lies cell by cell within `g`. */
  ghost predicate InsideGrid(h: seq<seq<seq<Image>>>, g: seq<seq<seq<Image>>>, n: nat) {
    && Square(h, n) && Square(g, n)
    && forall c, j :: OnGrid(c, n) && j in h[c.x][c.y] ==> j in g[c.x][c.y]
  }

  /** Every candidate of `h` has a support in each cell whose propagation
      reaches it: no revision propagation performs can remove anything
      from `h`. */
  ghost predicate Consistent(rule: Rule2D, top: Topology, h: seq<seq<seq<Image>>>, n: nat) {
    && Square(h, n)
    && forall p, d :: OnGrid(p, n) && d in Offsets(top, p, n) ==>
         Supported(rule, h[p.x][p.y], h[Neighbour(p, d, n).x][Neighbour(p, d, n).y], d)
  }

  /** Going from `g0` to `g` loses no consistent part of `g0`: the
      candidates of every consistent grid lying within `g0` are all still
      in `g`. So propagation removed only candidates that no consistent
      choice can use, and every solution within `g0` survives
      (`SolutionKept`). */
  ghost predicate KeepsConsistent(rule: Rule2D, top: Topology, g0: seq<seq<seq<Image>>>, g: seq<seq<seq<Image>>>,
                                  n: nat) {
    && Square(g0, n) && Square(g, n)
    && forall h :: Consistent(rule, top, h, n) && InsideGrid(h, g0, n) ==> InsideGrid(h, g, n)
  }

  /** Nothing removed, nothing lost. */
  lemma KeepsRefl(rule: Rule2D, top: Topology, g: seq<seq<seq<Image>>>, n: nat)
    requires Square(g, n)
    ensures KeepsConsistent(rule, top, g, g, n)
  {
  }

  /** Losing nothing composes across successive steps. */
  lemma KeepsTrans(rule: Rule2D, top: Topology, g0: seq<seq<seq<Image>>>, g1: seq<seq<seq<Image>>>,
                   g2: seq<seq<seq<Image>>>, n: nat)
    requires KeepsConsistent(rule, top, g0, g1, n) && KeepsConsistent(rule, top, g1, g2, n)
    ensures KeepsConsistent(rule, top, g0, g2, n)
  {
  }

  /** One `validate` from the cell at `p` along an offset its propagation
      follows loses no consistent part of the grid: a candidate of a
      consistent grid within `g` at the neighbour has its support at `p`
      within `g`, so the revision keeps it. */
  lemma ReviseKeepsConsistent(rule: Rule2D, top: Topology, g: seq<seq<seq<Image>>>, p: Pos, d: Dir, n: nat)
    requires Square(g, n) && OnGrid(p, n) && d in Offsets(top, p, n)
    ensures KeepsConsistent(rule, top, g, Revise(rule, g, p, Neighbour(p, d, n), d), n)
  {
    var q := Neighbour(p, d, n);
    var r := Revise(rule, g, p, q, d);
    RevisedSpec2D(rule, g[p.x][p.y], g[q.x][q.y], d);
    forall h | Consistent(rule, top, h, n) && InsideGrid(h, g, n) ensures InsideGrid(h, r, n) {
      forall c, j | OnGrid(c, n) && j in h[c.x][c.y] ensures j in r[c.x][c.y] {
        if c == q {
          assert Supported(rule, h[p.x][p.y], h[q.x][q.y], d);
          var i :| i in h[p.x][p.y] && Allowed2D(rule, i, j, d);
          assert i in g[p.x][p.y];
        }
      }
    }
  }

  /** A solution, a grid of one candidate per cell whose neighbours all
      fit, is consistent. */
  lemma SolutionConsistent(rule: Rule2D, top: Topology, s: seq<seq<seq<Image>>>, n: nat)
    requires AdjacencySound(rule, top, s, n)
    ensures Consistent(rule, top, s, n)
  {
    forall p, d | OnGrid(p, n) && d in Offsets(top, p, n)
      ensures Supported(rule, s[p.x][p.y], s[Neighbour(p, d, n).x][Neighbour(p, d, n).y], d)
    {
      var q := Neighbour(p, d, n);
      assert |s[p.x][p.y]| == 1 && |s[q.x][q.y]| == 1;
      assert s[q.x][q.y] == [s[q.x][q.y][0]];
      assert s[p.x][p.y][0] in s[p.x][p.y];
    }
  }

  /** Every solution within `g0` is still within `g` when `g` keeps the
      consistent parts of `g0`. */
  lemma SolutionKept(rule: Rule2D, top: Topology, g0: seq<seq<seq<Image>>>, g: seq<seq<seq<Image>>>,
                     s: seq<seq<seq<Image>>>, n: nat)
    requires KeepsConsistent(rule, top, g0, g, n) && AdjacencySound(rule, top, s, n) && InsideGrid(s, g0, n)
    ensures InsideGrid(s, g, n)
  {
    SolutionConsistent(rule, top, s, n);
  }

  /** `g` arises from `g0` by the pruning propagation performs: each
      candidate removed lacks support in `g` (`Justified`), and no
      consistent part of `g0` is lost (`KeepsConsistent`). */
  ghost predicate Pruned(rule: Rule2D, top: Topology, g0: seq<seq<seq<Image>>>, g: seq<seq<seq<Image>>>, n: nat) {
    Justified(rule, top, g0, g, n) && KeepsConsistent(rule, top, g0, g, n)
  }

  /** Nothing removed is a pruning. */
  lemma PrunedRefl(rule: Rule2D, top: Topology, g: seq<seq<seq<Image>>>, n: nat)
    requires Square(g, n)
    ensures Pruned(rule, top, g, g, n)
  {
    JustifiedRefl(rule, top, g, n);
    KeepsRefl(rule, top, g, n);
  }

  /** Prunings compose across successive shrinks. */
  lemma PrunedTrans(rule: Rule2D, top: Topology, g0: seq<seq<seq<Image>>>, g1: seq<seq<seq<Image>>>,
                    g2: seq<seq<seq<Image>>>, n: nat)
    requires Pruned(rule, top, g0, g1, n) && Pruned(rule, top, g1, g2, n) && Shrunk(g1, g2)
    ensures Pruned(rule, top, g0, g2, n)
  {
    JustifiedTrans(rule, top, g0, g1, g2, n);
    KeepsTrans(rule, top, g0, g1, g2, n);
  }

  /** One `validate` from the cell at `p` along an offset its propagation
      follows is a pruning. */
  lemma RevisePruned(rule: Rule2D, top: Topology, g: seq<seq<seq<Image>>>, p: Pos, d: Dir, n: nat)
    requires Square(g, n) && OnGrid(p, n) && d in Offsets(top, p, n)
    ensures Pruned(rule, top, g, Revise(rule, g, p, Neighbour(p, d, n), d), n)
  {
    ReviseJustified(rule, top, g, p, d, n);
    ReviseKeepsConsistent(rule, top, g, p, d, n);
  }

  /** A pruning of a grid that still holds a solution leaves no cell empty:
      propagation cannot deadlock while a fitting output remains possible. */
  lemma SolvableNoError(rule: Rule2D, top: Topology, g0: seq<seq<seq<Image>>>, g: seq<seq<seq<Image>>>,
                        s: seq<seq<seq<Image>>>, n: nat)
    requires Pruned(rule, top, g0, g, n) && AdjacencySound(rule, top, s, n) && InsideGrid(s, g0, n)
    ensures !HasError(g)
  {
    SolutionKept(rule, top, g0, g, s, n);
    forall x, y | 0 <= x < |g| && 0 <= y < |g[x]| ensures g[x][y] != [] {
      assert |s[x][y]| == 1 && s[x][y][0] in s[x][y];
      assert OnGrid(Pos(x, y), n);
    }
  }

  /** Every cell holds one candidate, and the candidate of each cell and the
      candidate of each neighbour it reaches are allowed side by side at
      their offset: the output obeys the adjacency rule everywhere. */
  ghost predicate AdjacencySound(rule: Rule2D, top: Topology, g: seq<seq<seq<Image>>>, n: nat) {
    && Square(g, n) && Decided(g)
    && forall c, d :: OnGrid(c, n) && d in Offsets(top, c, n) ==>
         Allowed2D(rule, g[c.x][c.y][0], g[Neighbour(c, d, n).x][Neighbour(c, d, n).y][0], d)
  }

  /** A decided grid reached from the initial grid by settled changes obeys
      the adjacency rule, once there are at least two keys: every cell then
      differs from the full key list, so every cell is settled, and a
      settled cell with one candidate allows the one candidate of each
      neighbour. */
  lemma SoundWhenDecided(rule: Rule2D, top: Topology, keys: seq<Image>, g: seq<seq<seq<Image>>>, n: nat)
    requires SettledSince(rule, top, InitialGrid(keys, n), g, n) && Decided(g) && 2 <= |keys|
    ensures AdjacencySound(rule, top, g, n)
  {
    forall c, d | OnGrid(c, n) && d in Offsets(top, c, n)
      ensures Allowed2D(rule, g[c.x][c.y][0], g[Neighbour(c, d, n).x][Neighbour(c, d, n).y][0], d)
    {
      var q := Neighbour(c, d, n);
      assert |g[c.x][c.y]| == 1 && |g[q.x][q.y]| == 1;
      assert g[c.x][c.y] != InitialGrid(keys, n)[c.x][c.y];
      SingleArc(rule, g, c, q, d);
    }
  }

  /** With a single key on the torus, a decided grid holds that key
      everywhere, so one settled cell shows that the key fits beside itself
      in every direction, and the whole grid obeys the rule. */
  lemma SoundWhenUniform(rule: Rule2D, g: seq<seq<seq<Image>>>, k: Image, at: Pos, n: nat)
    requires Square(g, n) && Decided(g) && WithinKeys2D(g, [k]) && OnGrid(at, n) && Settled(rule, Torus, g, at, n)
    ensures AdjacencySound(rule, Torus, g, n)
  {
    forall c | OnGrid(c, n) ensures g[c.x][c.y][0] == k {
      SubseqBounds(g[c.x][c.y], [k]);
      assert g[c.x][c.y][0] in g[c.x][c.y];
    }
    forall c, d | OnGrid(c, n) && d in Offsets(Torus, c, n)
      ensures Allowed2D(rule, g[c.x][c.y][0], g[Neighbour(c, d, n).x][Neighbour(c, d, n).y][0], d)
    {
      var q := Neighbour(at, d, n);
      assert d in Offsets(Torus, at, n);
      SingleArc(rule, g, at, q, d);
    }
  }

  /** A decided torus grid within a non-empty key list, reached from the
      initial grid by settled changes and with one settled cell, obeys the
      adjacency rule: by SoundWhenDecided for two keys or more, by
      SoundWhenUniform for one. */
  lemma SoundWhenFinished(rule: Rule2D, keys: seq<Image>, g: seq<seq<seq<Image>>>, at: Pos, n: nat)
    requires SettledSince(rule, Torus, InitialGrid(keys, n), g, n) && Decided(g) && WithinKeys2D(g, keys)
    requires keys != [] && OnGrid(at, n) && Settled(rule, Torus, g, at, n)
    ensures AdjacencySound(rule, Torus, g, n)
  {
    if 2 <= |keys| {
      SoundWhenDecided(rule, Torus, keys, g, n);
    } else {
      assert keys == [keys[0]];
      SoundWhenUniform(rule, g, keys[0], at, n);
    }
  }

  /** The first revision of `propagate` followed by a pruning of the
      recursive calls is a pruning as a whole. */
  lemma RevisedThenPruned(rule: Rule2D, g: seq<seq<seq<Image>>>, g1: seq<seq<seq<Image>>>,
                          g2: seq<seq<seq<Image>>>, p: Pos, d: Dir, n: nat)
    requires Square(g, n) && OnGrid(p, n) && d in Directions
    requires g1 == Revise(rule, g, p, Neighbour(p, d, n), d)
    requires Pruned(rule, Torus, g1, g2, n) && Shrunk(g1, g2)
    ensures Pruned(rule, Torus, g, g2, n)
  {
    RevisePruned(rule, Torus, g, p, d, n);
    PrunedTrans(rule, Torus, g, g1, g2, n);
  }

  /** A consistent arc between two decided cells allows their candidates
      side by side. */
  lemma SingleArc(rule: Rule2D, g: seq<seq<seq<Image>>>, p: Pos, q: Pos, d: Dir)
    requires ArcHolds(rule, g, p, q, d) && |g[p.x][p.y]| == 1 && |g[q.x][q.y]| == 1
    ensures Allowed2D(rule, g[p.x][p.y][0], g[q.x][q.y][0], d)
  {
    assert g[q.x][q.y][0] in g[q.x][q.y];
  }
}
