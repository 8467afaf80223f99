# Wave Function Collapse: a Dafny model of the solver core

This project models the symbolic core of the WaveFunctionCollapse repository, a small procedural generator. The generator treats its output as a finite-domain constraint problem:
- it extracts the N-length windows (1-D) or N×N windows (2-D) of a sample as a pattern catalog;
- every output cell starts as the list of all catalog keys;
- it repeatedly observes the undecided cell with the fewest candidates, collapsing it to one candidate;
- it propagates the consequences to the neighbours by filtering their candidate lists against an adjacency rule.

The model covers four drafts. Each file of the model keeps the form of its source: pure builders are functions, and state-changing code is methods with loops.

- **1-D class** (`WaveFunctionCollapse/1D/wfc1d.py`):
  - `Wfc1DClass.WFC` is a `class` whose fields `patterns`, `constrains`, `cells` and `finalstate` are updated by its methods.
  - `input`, `n` and `cellsCount` are never reassigned, so they are `const`.
  - The circular and non-circular window catalogues (`getPatternsWrap` and `getPatternsNoWrap`) are in `Patterns1D`.
- **1-D free functions** (`WaveFunctionCollapse/wfc1d.py`):
  - `Wfc1DFree` works on `array`s of candidate lists and an `array` of output slots, as the Python code mutates its lists in place.
  - `countPatterns` and `countPatternsNoWrap` are, line for line, the same code as `getPatternsWrap` and `getPatternsNoWrap`. They are modelled by the same members, `Patterns1D.PatternsWrap` and `Patterns1D.PatternsNoWrap`.
- **Newer 2-D class** (`WaveFunctionCollapse/2D/wfc2d-test.py`):
  - `Wfc2DTest.WFC2D` holds the catalog, the constraint triples and the grid `cells` as fields.
  - The worklist loop of `__stackpropagate` and the snapshot/restore loop of `generate` are methods with loop invariants.
- **Older 2-D free functions** (`WaveFunctionCollapse/2D/wfc2d-old.py`):
  - `Wfc2DOld` works on an `array2` of candidate lists.
  - Its `propagate` is recursive on the torus.
  - Its `validate` reads the catalog directly.

Shared vocabulary:
- **`Lists`**: order-preserving sub-lists, duplicate freedom, the filter `validate` performs (`Refine`), Python slicing and `''.join`.
- **`Tally`**: the Python dict built by `setdefault(k, 0); d[k] += 1`. It is a key list in insertion order plus a count map.
- **`Wave1D`**: the `EMPTY-CELL` marker, the revision rule of both 1-D drafts, and the function `Propagated` that defines the effect of the 1-D propagation.
- **`Grid2D`**: directions, `cellsDirs`, grid measures, `hasError` and `hasFinished`, and the two `observe` scans.
- **`Patterns2D`**: pictures as columns of pixels (`img[x][y]`). PIL's `crop`, `paste`, `get_concat_h` and `get_concat_v` are read as slicing.
- **`Wave2D`**: the two revision rules of the 2-D drafts.

Conventions:
- Random draws are explicit. Every `random.randint(0, len(cell)-1)` becomes a draw `d: nat`, and the candidate taken is `cell[d % len(cell)]`. The drivers take a sequence `draws` with one draw per round, so their loops are bounded by it.
- A Python exception becomes an outcome value: `Crashed` in the 1-D drivers and in the older 2-D driver. Such an exception is `randint` on an empty cell, or `cells[-1]` of an empty grid.
- The md5 key of a pattern picture is replaced by the picture itself.

Behaviours of the code that the model makes explicit:
- **Observe tie-breaking:**
  - the newer 2-D `__observe` keeps the first cell of smallest size (strict `<`);
  - the older `observe` keeps the last (`<=`);
  - both 1-D drafts keep the first undecided cell;
  - when no cell qualifies, the 1-D drafts and the older 2-D draft use index `-1`, that is the last cell (`Observe` models `PyIndex`).
- **`[1,0]` and `[-1,0]` coincide.** `createPatternsFromImages` only asks whether `dir[0]`, else `dir[1]`, is non-zero, and always puts `img1` first. So the constraint triples for `[1,0]` and `[-1,0]` coincide, and so do those for `[0,1]` and `[0,-1]` (`MirroredTriples`, `MirroredSupport`, `FitsMirrored`).
- **Reversed argument order.** The older `validate` crops `patternsFromImages(patterns[j], patterns[i], dir)`, with `j` first, whereas the class lists `[i, j, dir]` when `i` followed by `j` fits (`OrderSwapped`).
- **Duplicate pushes.** `__stackpropagate` pushes a neighbour every time it shrank, so a neighbour already on the stack is pushed again.
- **`createPatternsFromFile`** in the older file runs the same window loop as `createPatternsFromImage`. The older `WFC` driver is therefore given the picture itself.
- **A single key in the older driver.** Every cell starts with that one key, so `observe` finds no undecided cell and collapses the last cell. The round finishes the run when the key fits beside itself. A catalog with a single torus window comes from a constant picture, whose key does fit, when N is at most the picture's width and height. Otherwise, propagation would empty a neighbour, the snapshot would be restored, and the round would repeat until the draws run out (`OutOfDraws`).

## Model

| member | source | states |
|---|---|---|
| Lists.RefineSpec | WaveFunctionCollapse/1D/wfc1d.py:88-93 | the rebuilt `cellB` holds exactly the candidates of `cellB` that lie in the allowed set, each once, as an order-preserving sub-list of `cellB` |
| Lists.RefineChanged | WaveFunctionCollapse/1D/wfc1d.py:95 | `Counter(cellB) != Counter(newcell)` holds exactly when the rebuilt list is shorter, i.e. when candidates were removed |
| Lists.RefineFixed | WaveFunctionCollapse/1D/wfc1d.py:88-96 | a duplicate-free list whose candidates are all allowed is rebuilt unchanged |
| Lists.RefineIdempotent | WaveFunctionCollapse/1D/wfc1d.py:88-96 | filtering an already filtered list against the same allowed set changes nothing |
| Lists.PySlice | WaveFunctionCollapse/1D/wfc1d.py:40 | Python slicing: never longer than the list, the plain slice for in-range bounds, clipped at the end, empty past it |
| Lists.JoinLength | WaveFunctionCollapse/1D/wfc1d.py:125 | joining m strings of length n gives m·n characters |
| Tally.CountAllSpec | WaveFunctionCollapse/1D/wfc1d.py:42-45 | after `setdefault(k,0); d[k]+=1` over a list, the dict is well formed, its keys are exactly the list's elements in first-occurrence order, and each count is that element's number of occurrences |
| Tally.CountAllTotal | WaveFunctionCollapse/1D/wfc1d.py:42-45 | the counts add up to the number of elements fed in |
| Tally.BumpSpec | WaveFunctionCollapse/1D/wfc1d.py:44-45 | one `setdefault`/`+= 1` keeps the dict well formed, enters the key if absent and raises its count by one, all other counts unchanged |
| Tally.BumpTotal | WaveFunctionCollapse/1D/wfc1d.py:44-45 | one increment raises the sum of the counts by one |
| Patterns1D.GetPatternsWrap | WaveFunctionCollapse/1D/wfc1d.py:131-147 | the chunk loop over the wrapped input returns the circular catalog `PatternsWrap`, whose properties the lemmas below prove |
| Patterns1D.GetPatternsNoWrap | WaveFunctionCollapse/1D/wfc1d.py:149-164 | the chunk loop returns the non-wrapping catalog `PatternsNoWrap` |
| Patterns1D.Chunks | WaveFunctionCollapse/1D/wfc1d.py:141-142 | one slice per start position of the wrapped input |
| Patterns1D.SizedChunks | WaveFunctionCollapse/1D/wfc1d.py:159-161 | for N ≥ 1 the chunks of length exactly N are the contiguous length-N windows, in order of start |
| Patterns1D.NoWrapSpec | WaveFunctionCollapse/1D/wfc1d.py:159-163 | a string is a key of `getPatternsNoWrap(s, N)` iff it is a contiguous length-N substring of s; the counts sum to max(0, len(s)−N+1) |
| Patterns1D.WrapInputShape | WaveFunctionCollapse/1D/wfc1d.py:40 | for 1 ≤ N ≤ len(s) the wrapped input is the last N−1 symbols followed by s, its i-th symbol being `s[(i+len−N+1) mod len]` |
| Patterns1D.WrapWindows | WaveFunctionCollapse/1D/wfc1d.py:40-41 | the wrapped input has len(s) full windows, the j-th being the circular window of s that starts N−1 positions before j |
| Patterns1D.WrapKeysAreCircular | WaveFunctionCollapse/1D/wfc1d.py:40-45 | for 1 ≤ N ≤ len(s), k is a catalog key iff |k| = N and `k[t] == s[(j+t) mod len]` for some start j |
| Patterns1D.WrapCatalogShape | WaveFunctionCollapse/1D/wfc1d.py:40-45 | the catalog has no repeated key, every key has length N, and for 1 ≤ N ≤ len(s) the counts sum to len(s) |
| Patterns1D.WrapKeyLengths | WaveFunctionCollapse/1D/wfc1d.py:43-45 | every key has length N, for any N |
| Patterns1D.AdmissibleWindows | WaveFunctionCollapse/1D/wfc1d.py:63-65 | the overlap test holds iff every length-N window of `i+j`, by position, is a catalog key |
| Patterns1D.AdmissibleKeys | WaveFunctionCollapse/1D/wfc1d.py:64-65 | `set(foundpatterns) <= set(self.patterns.keys())` is exactly the overlap test |
| Patterns1D.RowPairsSpec | WaveFunctionCollapse/1D/wfc1d.py:62-66 | the inner loop appends `[i, j]` exactly for the listed j that pass the overlap test |
| Patterns1D.AllPairsSpec | WaveFunctionCollapse/1D/wfc1d.py:61-66 | `[i, j]` is in `constrains` iff both are catalog keys and every length-N window of `i+j` is a catalog key |
| Patterns1D.CircularNeighbours | WaveFunctionCollapse/1D/wfc1d.py:61-66 | over a circular catalog every key has an admissible left neighbour and an admissible right neighbour among the keys |
| Patterns1D.CircularPairAdmissible | WaveFunctionCollapse/1D/wfc1d.py:61-66 | the circular window at a followed by the one N positions later passes the overlap test |
| Patterns1D.ConcatCircular | WaveFunctionCollapse/1D/wfc1d.py:63-64 | every length-N window of that concatenation is a circular window of the sample |
| Wave1D.InitialCells | WaveFunctionCollapse/1D/wfc1d.py:52-57 | `cellsCount` cells, each the catalog's key list |
| Wave1D.InitialWithinKeys | WaveFunctionCollapse/1D/wfc1d.py:52-57 | every initial cell is a sub-list of the key list |
| Wave1D.AllUndecided | WaveFunctionCollapse/1D/wfc1d.py:116-118 | the output starts with one `EMPTY-CELL` marker per cell and nothing else |
| Wave1D.ScanFirstMin | WaveFunctionCollapse/1D/wfc1d.py:72-78 | the scan keeps the first undecided cell whose size is strictly below every earlier undecided size and below `len(patterns)+1`, or −1 when there is none |
| Wave1D.ScanFinds | WaveFunctionCollapse/1D/wfc1d.py:72-78 | while an output slot is undecided and every cell lies within the keys, the scan finds a real index |
| Wave1D.MarkOne | WaveFunctionCollapse/1D/wfc1d.py:82 | writing a key into an undecided slot keeps every slot undecided-or-a-key and removes one marker when the marker is not a key |
| Wave1D.FilledLength | WaveFunctionCollapse/1D/wfc1d.py:120-125 | once no slot is undecided, the joined output has N characters per cell |
| Wave1D.RevisedSpec | WaveFunctionCollapse/1D/wfc1d.py:86-97 | the revised neighbour keeps exactly the candidates some candidate of `cellA` allows, once each and in order; the flag means candidates were removed; revising again changes nothing |
| Wave1D.RevisedSame | WaveFunctionCollapse/1D/wfc1d.py:95-96 | when the multiset is unchanged, `cellB` is left exactly as it was |
| Wave1D.SupportAgree | WaveFunctionCollapse/wfc1d.py:88-98 | the free function's overlap test keeps the same candidates as the class's lookup in its `constrains` table |
| Wave1D.PropagatedLength | WaveFunctionCollapse/1D/wfc1d.py:99-113 | propagation keeps the number of cells |
| Wave1D.PropagatedLocal | WaveFunctionCollapse/1D/wfc1d.py:105-111 | only the cells pos+1, pos+2, … (mod len), up to the number of changed neighbours, can differ afterwards |
| Wave1D.PropagatedStop | WaveFunctionCollapse/1D/wfc1d.py:110-113 | when the right neighbour does not change, propagation ends with the cells as they were |
| Wave1D.PropagatedGo | WaveFunctionCollapse/1D/wfc1d.py:105-111 | when the right neighbour shrank, the total size fell and propagation continues from that neighbour |
| Wave1D.PropagatedStable | WaveFunctionCollapse/1D/wfc1d.py:105-113 | propagation stops at the first neighbour that a further validation would leave unchanged |
| Wave1D.PropagatedShrinks | WaveFunctionCollapse/1D/wfc1d.py:105-111 | every cell afterwards is a sub-list of the cell before: domains only shrink |
| Wave1D.KeepsWithinKeys | WaveFunctionCollapse/1D/wfc1d.py:99-113 | propagation keeps every cell within the catalog's key list |
| Wave1D.Propagated | WaveFunctionCollapse/1D/wfc1d.py:99-113 | propagation never adds candidates in total, and removes some exactly when the first validation of the right neighbour does |
| Wfc1DClass.WFC.constructor | WaveFunctionCollapse/1D/wfc1d.py:19-26 | keeps the arguments, builds catalog and table from the input, the initial wave, and an empty `finalstate` |
| Wfc1DClass.WFC.InitPatterns | WaveFunctionCollapse/1D/wfc1d.py:28-46 | `self.patterns` becomes the circular catalog of the input |
| Wfc1DClass.WFC.InitCells | WaveFunctionCollapse/1D/wfc1d.py:48-57 | `self.cells` becomes `cellsCount` copies of the key list |
| Wfc1DClass.WFC.InitConstrains | WaveFunctionCollapse/1D/wfc1d.py:59-66 | `self.constrains` becomes the admissible pairs, `i` in the outer loop, both over the key list |
| Wfc1DClass.WFC.Observe | WaveFunctionCollapse/1D/wfc1d.py:68-84 | the chosen index is the scan's first strictly smallest undecided cell (or −1, the last cell); with an undecided slot it is a real index; that cell becomes its candidate `draw mod size`, written also to its output slot; an empty chosen cell changes nothing |
| Wfc1DClass.WFC.Validate | WaveFunctionCollapse/1D/wfc1d.py:86-97 | `cells[b]` becomes the revision by the `constrains` table and nothing else changes; the result is True iff the multiset changed, iff candidates were removed |
| Wfc1DClass.WFC.Propagate | WaveFunctionCollapse/1D/wfc1d.py:99-113 | the cells afterwards are `Propagated` of the cells before, whose locality, stopping and shrinking lemmas are above |
| Wfc1DClass.WFC.Round | WaveFunctionCollapse/1D/wfc1d.py:120-122 | the observed index is the scan's first smallest undecided cell; when it has a candidate, its slot takes candidate `draw mod size` and the cells become `Propagated` of the collapsed cells; otherwise nothing changes; one undecided marker is removed |
| Wfc1DClass.WFC.Generate | WaveFunctionCollapse/1D/wfc1d.py:115-125 | a completed run joins slots that are all catalog keys, performed exactly `cellsCount` rounds, returns `cellsCount·N` characters and resets the wave; a crash happens on the scan's chosen cell, which is empty; `OutOfDraws` only after every draw; with enough draws it never runs out |
| Wfc1DClass.WFC.Reset | WaveFunctionCollapse/1D/wfc1d.py:127-128 | the wave is the initial one again |
| Wfc1DFree.InitializeCells | WaveFunctionCollapse/wfc1d.py:52-62 | a fresh list of n cells, each the key list |
| Wfc1DFree.Observe | WaveFunctionCollapse/wfc1d.py:64-80 | as the class's observe, on arrays: first strictly smallest undecided cell (−1 when none), collapsed to candidate `draw mod size`, written to its slot; an empty chosen cell changes nothing |
| Wfc1DFree.Validate | WaveFunctionCollapse/wfc1d.py:83-103 | `cells[b]` becomes the revision by the overlap test and nothing else changes; True iff the multiset changed, iff candidates were removed |
| Wfc1DFree.ReviseCell | WaveFunctionCollapse/wfc1d.py:86-99 | the double loop builds exactly the revised list |
| Wfc1DFree.KeepIfFits | WaveFunctionCollapse/wfc1d.py:88-99 | j is appended iff some i of `cellA` passes the overlap test and j is not yet in `newcell` |
| Wfc1DFree.WindowsKnown | WaveFunctionCollapse/wfc1d.py:89-96 | `valok` is True iff every window of `countPatternsNoWrap(i+j, len(i))` is a catalog key |
| Wfc1DFree.Propagate | WaveFunctionCollapse/wfc1d.py:105-118 | the array afterwards holds `Propagated` of the cells before |
| Wfc1DFree.Round | WaveFunctionCollapse/wfc1d.py:128-130 | as the class's round, on arrays: collapse the first smallest undecided cell to candidate `draw mod size`, then `Propagated`; nothing changes on an empty cell |
| Wfc1DFree.WFC | WaveFunctionCollapse/wfc1d.py:121-132 | a completed run prints the join of slots that are all catalog keys, `outputCellCount·N` characters, after exactly `outputCellCount` rounds; a crash happens on the scan's chosen cell, which is empty; with enough draws it never runs out |
| Grid2D.CellsDirs | WaveFunctionCollapse/2D/wfc2d-test.py:18-29 | the kept offsets come in the order `[-1,0]`, `[1,0]`, `[0,-1]`, `[0,1]` without repeats and, from a position inside the grid, are exactly the unit steps that stay inside it |
| Grid2D.CellsDirsNoWrap | WaveFunctionCollapse/2D/wfc2d-test.py:286-288 | from a position inside the grid the `%` applied to a kept step never wraps |
| Grid2D.CellsDirsMove | WaveFunctionCollapse/2D/wfc2d-test.py:286-288 | a kept step from a position inside the grid reaches the plain neighbour `pos + dir`, never the cell itself |
| Grid2D.InitialGrid | WaveFunctionCollapse/2D/wfc2d-test.py:178-190 | an n by n grid whose every cell is the key list |
| Grid2D.InitialGridSpec | WaveFunctionCollapse/2D/wfc2d-old.py:111-124 | the initial grid lies within the keys, has no empty cell when there are keys, and has one when there are none |
| Grid2D.FinishedDecided | WaveFunctionCollapse/2D/wfc2d-old.py:157-169 | a grid where `hasFinished` holds and `hasError` does not has exactly one candidate per cell |
| Grid2D.ShrunkSize | WaveFunctionCollapse/2D/wfc2d-test.py:281-295 | a shrunk grid holds no more candidates, and as many only when nothing changed |
| Grid2D.ScanFirstMin2D | WaveFunctionCollapse/2D/wfc2d-test.py:198-207 | the scan keeps the row-major first cell of strictly smallest size among cells with more than one candidate and below the bound |
| Grid2D.ScanFirstRow | WaveFunctionCollapse/2D/wfc2d-test.py:202-207 | one row of that scan extends its invariant to the next row |
| Grid2D.ScanLastMin2D | WaveFunctionCollapse/2D/wfc2d-old.py:131-140 | the scan keeps the row-major last cell of smallest size (`<=`) among cells with more than one candidate and not above the bound |
| Grid2D.ScanLastRow | WaveFunctionCollapse/2D/wfc2d-old.py:135-140 | one row of that scan extends its invariant to the next row |
| Grid2D.FirstMinFinds | WaveFunctionCollapse/2D/wfc2d-test.py:198-221 | from the bound `len(patterns)+1` over a grid within the keys, the newer scan finds nothing iff every cell has at most one candidate |
| Grid2D.LastMinFinds | WaveFunctionCollapse/2D/wfc2d-old.py:131-140 | the same for the older scan |
| Patterns2D.PadWrapTorus | WaveFunctionCollapse/2D/wfc2d-test.py:93-100 | for N ≤ width, height, the padded picture is (w+N) by (h+N) and its pixel (x, y) is the source pixel (x mod w, y mod h) |
| Patterns2D.CropInside | WaveFunctionCollapse/2D/wfc2d-test.py:39-42 | a box inside the picture is cropped to a w by h picture, pixel (a, b) being the source pixel (x+a, y+b) |
| Patterns2D.CropClips | WaveFunctionCollapse/2D/wfc2d-test.py:39-42 | the crop has `w` columns; a column outside the picture is empty, and one inside keeps only the rows the picture has |
| Patterns2D.ConcatHPixels | WaveFunctionCollapse/2D/wfc2d-test.py:44-48 | two pictures of one height side by side: width w1+w2, pixel (x, y) from `im1` for x < w1, else from `im2` at x−w1 |
| Patterns2D.ConcatVPixels | WaveFunctionCollapse/2D/wfc2d-test.py:50-54 | two pictures of one width stacked: height h1+h2, pixel (x, y) from `im1` for y < h1, else from `im2` at y−h1 |
| Patterns2D.WindowIsTorus | WaveFunctionCollapse/2D/wfc2d-test.py:103-105 | the crop at a corner (x, y) with x < w, y < h is the N×N window of the source read as a torus |
| Patterns2D.Windows2DSpec | WaveFunctionCollapse/2D/wfc2d-test.py:103-105 | the double loop crops exactly the windows with a corner x < w, y < h |
| Patterns2D.Catalog2DSpec | WaveFunctionCollapse/2D/wfc2d-test.py:88-124 | for N ≤ width, height, the keys have no repeats, each is N by N, and a picture is a key iff it is the torus window at some corner x < width, y < height |
| Patterns2D.AddKey | WaveFunctionCollapse/2D/wfc2d-test.py:109-110 | after `setdefault` and assignment the key is present and no earlier key is lost |
| Patterns2D.CreatePatternsFromImage | WaveFunctionCollapse/2D/wfc2d-test.py:88-124 | the double loop returns the catalog `Catalog2D` of the source |
| Patterns2D.ColumnPatterns | WaveFunctionCollapse/2D/wfc2d-test.py:104-110 | the inner loop over column x adds that column's crops to the keys already found |
| Patterns2D.CreatePatternsFromImages | WaveFunctionCollapse/2D/wfc2d-test.py:56-86 | the loop returns exactly the distinct crops of the two pictures for the direction, and nothing for `[0,0]` |
| Patterns2D.CropsBeside | WaveFunctionCollapse/2D/wfc2d-test.py:58-71 | with `dir[0] != 0`: the distinct width-sized crops of the side-by-side concatenation |
| Patterns2D.CropsBelow | WaveFunctionCollapse/2D/wfc2d-test.py:72-85 | with `dir[0] == 0 != dir[1]`: the distinct crops of the stacked concatenation |
| Patterns2D.FitsKeys | WaveFunctionCollapse/2D/wfc2d-test.py:241 | the subset test of `__initConstrains`, and the key loop of the older `validate`, both hold iff every crop is a catalog key |
| Patterns2D.PairWindowsBeside | WaveFunctionCollapse/2D/wfc2d-test.py:59-61 | for two w by h pictures the x-th crop is the columns x … x+w−1 of the concatenation |
| Patterns2D.PairWindowsBelow | WaveFunctionCollapse/2D/wfc2d-test.py:73-75 | for two w by h pictures the y-th crop is w by h and reads `img1` below row y, then `img2` |
| Patterns2D.PairTriplesSpec | WaveFunctionCollapse/2D/wfc2d-test.py:240-254 | the four tests append `[i, j, dir]` exactly for the directions of the four whose crops all fit |
| Patterns2D.RowTriplesSpec | WaveFunctionCollapse/2D/wfc2d-test.py:239-254 | the inner loop appends exactly the fitting triples with the given `keyi` |
| Patterns2D.AllTriplesSpec | WaveFunctionCollapse/2D/wfc2d-test.py:236-254 | a triple is listed iff both keys are listed, the direction is one of the four, and all its crops are catalog keys |
| Patterns2D.MirroredTriples | WaveFunctionCollapse/2D/wfc2d-test.py:240-254 | `[i, j, [1,0]]` is listed iff `[i, j, [-1,0]]` is, and likewise for `[0,1]` and `[0,-1]` |
| Patterns2D.FitsMirrored | WaveFunctionCollapse/2D/wfc2d-test.py:58-73 | only the axis of the direction matters to the crop test |
| Wave2D.RevisedSpec2D | WaveFunctionCollapse/2D/wfc2d-test.py:297-309 | the revised neighbour keeps exactly the candidates allowed from some candidate of `cellA`, once each and in order; the flag means candidates were removed; revising again changes nothing |
| Wave2D.RevisedSame2D | WaveFunctionCollapse/2D/wfc2d-test.py:307-308 | an unchanged multiset leaves `cellB` exactly as it was |
| Wave2D.ReviseShrinks | WaveFunctionCollapse/2D/wfc2d-test.py:297-309 | a revision only shrinks the grid, lowers its candidate count iff it removed something and otherwise leaves it equal |
| Wave2D.ReviseKeeps | WaveFunctionCollapse/2D/wfc2d-test.py:297-309 | a revision keeps a square grid within the keys square and within the keys |
| Wave2D.OrderSwapped | WaveFunctionCollapse/2D/wfc2d-old.py:205 | the older file's test with the two keys swapped is the class's triple lookup |
| Wave2D.MirroredSupport | WaveFunctionCollapse/2D/wfc2d-test.py:240-254 | with the class's table, revising the left neighbour keeps the same candidates as the right, and the upper as the lower |
| Wave2D.FixedPointSupported | WaveFunctionCollapse/2D/wfc2d-test.py:297-309 | `validate` leaves a list as it is iff the list repeats no candidate and each of its candidates has a support in `cellA` |
| Wave2D.ArcIsFixed | WaveFunctionCollapse/2D/wfc2d-test.py:297-309 | an arc is consistent iff revising its target from a non-empty source removes nothing |
| Wave2D.SettledIsFixedPoint | WaveFunctionCollapse/2D/wfc2d-test.py:281-295 | a cell is settled iff, when it has a candidate, revising each neighbour it reaches from it removes nothing: the fixed point of propagation |
| Wave2D.ReviseHeld | WaveFunctionCollapse/2D/wfc2d-test.py:297-309 | revising along a consistent arc leaves the grid as it is |
| Wave2D.ArcShrunk | WaveFunctionCollapse/2D/wfc2d-test.py:281-295 | a consistent arc stays consistent while its target shrinks and its source is unchanged |
| Wave2D.SettledSinceTrans | WaveFunctionCollapse/2D/wfc2d-test.py:318-343 | settled changes compose across successive shrinks of the grid |
| Wave2D.SettledSinceSet | WaveFunctionCollapse/2D/wfc2d-test.py:328-332 | collapsing a cell and propagating until it and every change are settled leaves every change since before the collapse settled |
| Wave2D.ArcsAlongStep | WaveFunctionCollapse/2D/wfc2d-old.py:232-235 | one more torus propagation keeps the arcs out of the observed cell already made consistent, and adds its own |
| Wave2D.ArcAfterPropagation | WaveFunctionCollapse/2D/wfc2d-old.py:185-196 | after a revision that removed something and the recursive calls, the arc from `pos` to the revised neighbour holds and every change since the revision is settled |
| Wave2D.SoundWhenDecided | WaveFunctionCollapse/2D/wfc2d-test.py:318-351 | a decided grid reached from the initial grid, over at least two keys, by settled changes has every adjacent pair allowed by the rule |
| Wave2D.SoundWhenUniform | WaveFunctionCollapse/2D/wfc2d-old.py:220-252 | with a single key, a decided torus grid with one settled cell has every adjacent pair allowed |
| Wave2D.SoundWhenFinished | WaveFunctionCollapse/2D/wfc2d-old.py:220-252 | a decided torus grid over a non-empty catalog, reached by settled changes and with one settled cell, has every adjacent pair allowed |
| Wave2D.ReviseJustified | WaveFunctionCollapse/2D/wfc2d-test.py:297-309 | each candidate one `validate` removes lacks support, in the result, from the cell it was revised from |
| Wave2D.UnsupportedShrunk | WaveFunctionCollapse/2D/wfc2d-test.py:297-309 | a candidate without support keeps lacking it while the grid shrinks |
| Wave2D.JustifiedTrans | WaveFunctionCollapse/2D/wfc2d-test.py:281-295 | removals lacking support compose across successive shrinks, since support only shrinks |
| Wave2D.ReviseKeepsConsistent | WaveFunctionCollapse/2D/wfc2d-test.py:297-309 | one `validate` loses no consistent sub-grid: a candidate of the neighbour with a support inside the source cell is kept |
| Wave2D.RevisePruned | WaveFunctionCollapse/2D/wfc2d-old.py:200-218 | one `validate` along an offset propagation follows is a pruning: removals lack support and no consistent sub-grid is lost |
| Wave2D.PrunedTrans | WaveFunctionCollapse/2D/wfc2d-test.py:281-295 | prunings compose across successive shrinks |
| Wave2D.SolutionConsistent | WaveFunctionCollapse/2D/wfc2d-test.py:281-295 | an output with one candidate per cell whose neighbours all fit is a consistent sub-grid |
| Wave2D.SolutionKept | WaveFunctionCollapse/2D/wfc2d-test.py:281-295 | a pruning keeps every fitting output that lay within its start |
| Wave2D.SolvableNoError | WaveFunctionCollapse/2D/wfc2d-test.py:332-343 | a pruning of a grid that still holds a fitting output leaves no cell empty, so the `hasError` restore after `__stackpropagate` happens only when no fitting output agrees with the collapse |
| Wave2D.RevisedThenPruned | WaveFunctionCollapse/2D/wfc2d-old.py:185-196 | the first revision of `propagate` followed by a pruning by the recursion is a pruning as a whole |
| Wfc2DTest.PairTests | WaveFunctionCollapse/2D/wfc2d-test.py:240-254 | the four tests of one pair of keys append the fitting triples |
| Wfc2DTest.RowTests | WaveFunctionCollapse/2D/wfc2d-test.py:239-254 | the inner loop for one `keyi` |
| Wfc2DTest.ReviseCell | WaveFunctionCollapse/2D/wfc2d-test.py:299-305 | the double loop builds exactly the revised list |
| Wfc2DTest.KeepIfListed | WaveFunctionCollapse/2D/wfc2d-test.py:301-305 | the search for i stops with success iff some i of `cellA` has `[i, j, dir]` listed, and then j is appended unless already there |
| Wfc2DTest.WFC2D.constructor | WaveFunctionCollapse/2D/wfc2d-test.py:166-172 | keeps the arguments, builds catalog and triples from the picture and starts from the initial grid |
| Wfc2DTest.WFC2D.Reset | WaveFunctionCollapse/2D/wfc2d-test.py:360-363 | catalog and triples rebuilt, grid back to the initial one |
| Wfc2DTest.WFC2D.InitPatterns | WaveFunctionCollapse/2D/wfc2d-test.py:174-176 | `self.patterns` becomes the catalog of the input picture |
| Wfc2DTest.WFC2D.InitCells | WaveFunctionCollapse/2D/wfc2d-test.py:178-192 | `self.cells` becomes the `cellCount` by `cellCount` grid of key lists |
| Wfc2DTest.WFC2D.InitConstrains | WaveFunctionCollapse/2D/wfc2d-test.py:236-256 | `self.constrains` becomes the fitting triples over all ordered key pairs, in loop order |
| Wfc2DTest.WFC2D.Observe | WaveFunctionCollapse/2D/wfc2d-test.py:194-225 | returns no position iff no cell has more than one candidate, and then changes nothing; otherwise the position is the scan's row-major first strictly smallest such cell, which alone becomes its candidate `draw mod size` |
| Wfc2DTest.WFC2D.Validate | WaveFunctionCollapse/2D/wfc2d-test.py:297-309 | `cells[b]` becomes the revision by the triple lookup; the result is True iff the multiset changed, iff the grid lost candidates; otherwise nothing changes |
| Wfc2DTest.WFC2D.StackPropagate | WaveFunctionCollapse/2D/wfc2d-test.py:281-295 | domains only shrink and every push follows a strict shrink; at the end `pos` is settled (each in-grid neighbour is a fixed point of `validate` from it) and so is every cell that changed; when `pos` was settled already nothing changes. It is a pruning (`Pruned`): every candidate removed lacks support in the result from some cell whose propagation reaches it, and every consistent sub-grid of the start, so every fitting output within it, is still within the result. |
| Wfc2DTest.WFC2D.PopRevise | WaveFunctionCollapse/2D/wfc2d-test.py:285-295 | one pop: the grid shrinks, the stack loses the popped position and gains one entry per strict shrink, the cells off the stack stay settled, and a settled popped position pushes nothing. It is a pruning (`Pruned`): every candidate removed lacks support in the result from some cell whose propagation reaches it, and every consistent sub-grid of the start, so every fitting output within it, is still within the result. |
| Wfc2DTest.WFC2D.ReviseNeighbours | WaveFunctionCollapse/2D/wfc2d-test.py:286-295 | the popped cell keeps its list and ends settled; `changed` lists in-grid neighbours along `cellsDirs` that strictly shrank, and every cell that changed is listed; a settled popped cell changes nothing. It is a pruning (`Pruned`): every candidate removed lacks support in the result from some cell whose propagation reaches it, and every consistent sub-grid of the start, so every fitting output within it, is still within the result. |
| Wfc2DTest.WFC2D.ReviseStep | WaveFunctionCollapse/2D/wfc2d-test.py:287-295 | one direction of the loop extends its invariant: the arcs out of the popped cell so far hold, the neighbours that shrank are collected, and the grid since the pop stays a pruning, keeping every consistent sub-grid |
| Wfc2DTest.WFC2D.ReviseToward | WaveFunctionCollapse/2D/wfc2d-test.py:287-295 | `next` is `(currentpos + dir) mod len(cells)`; the new grid is the revision of `next` from the popped cell when that has a candidate, else the old grid; no other cell changes; `haschanged` holds iff `next` lost candidates |
| Wfc2DTest.WFC2D.ScanError | WaveFunctionCollapse/2D/wfc2d-test.py:353-358 | True iff some cell has no candidate |
| Wfc2DTest.WFC2D.Round | WaveFunctionCollapse/2D/wfc2d-test.py:328-332 | no position iff the grid was finished, and then nothing changes; otherwise the position is the scan's first smallest undecided cell, and the grid is that cell collapsed to candidate `draw mod size` and then pruned by propagation: the cell and every change end settled, every removal lacks support, and every fitting output that agrees with the collapse survives |
| Wfc2DTest.WFC2D.Rounds | WaveFunctionCollapse/2D/wfc2d-test.py:321-343 | the grid only shrinks (a restore goes back to that round's snapshot); `Finished` only on a finished grid; `OutOfDraws` only after every draw was used; a deadlock is reported after exactly `cellCount·cellCount·2 + 1` rounds; a grid without empty cells stays free of them unless a deadlock is reported; settled changes since the initial grid stay settled across rounds and restores |
| Wfc2DTest.WFC2D.RestoreOnError | WaveFunctionCollapse/2D/wfc2d-test.py:341-343 | the grid is put back to exactly the snapshot iff a cell ran empty, else left as it is |
| Wfc2DTest.WFC2D.Generate | WaveFunctionCollapse/2D/wfc2d-test.py:318-351 | a finished run ends on a finished grid; from a non-empty catalog and no empty cell it has one candidate per cell; with at least two keys, starting from a state reached by settled changes, every adjacent pair of the result is a listed triple |
| Wfc2DOld.InitializeCells | WaveFunctionCollapse/2D/wfc2d-old.py:111-124 | a fresh n by n grid whose every cell is the key list |
| Wfc2DOld.Copy | WaveFunctionCollapse/2D/wfc2d-old.py:227 | `deepcopy`: a fresh grid of the same shape with the same lists |
| Wfc2DOld.ScanFinished | WaveFunctionCollapse/2D/wfc2d-old.py:157-162 | True iff no cell has more than one candidate |
| Wfc2DOld.ScanError | WaveFunctionCollapse/2D/wfc2d-old.py:164-169 | True iff some cell has no candidate |
| Wfc2DOld.Observe | WaveFunctionCollapse/2D/wfc2d-old.py:127-155 | on an unfinished grid the position is the row-major last smallest cell with more than one candidate; on a finished one it is `[-1, -1]`, the last cell; that cell alone becomes its candidate `draw mod size`; it fails exactly on an empty grid or an empty last cell |
| Wfc2DOld.Validate | WaveFunctionCollapse/2D/wfc2d-old.py:200-218 | `cells[b]` becomes the revision by the crop test with j first; True iff the multiset changed, iff the grid lost candidates; otherwise nothing changes |
| Wfc2DOld.ReviseCell | WaveFunctionCollapse/2D/wfc2d-old.py:202-214 | the double loop builds exactly the revised list |
| Wfc2DOld.KeepIfFits | WaveFunctionCollapse/2D/wfc2d-old.py:204-214 | j is appended iff some i of `cellA` makes the crops of `patterns[j]` then `patterns[i]` fit and j is not yet in `newcell` |
| Wfc2DOld.WindowsKnown | WaveFunctionCollapse/2D/wfc2d-old.py:205-211 | `valok` is True iff every crop of `patterns[j]` then `patterns[i]` is a catalog key |
| Grid2D.Neighbour | WaveFunctionCollapse/2D/wfc2d-old.py:186-187 | `(pos + dir) mod len(cells)` on both axes is a position of the grid |
| Grid2D.NeighbourWrap | WaveFunctionCollapse/2D/wfc2d-old.py:186-187 | from an index in `-len … len-1`, as `observe`'s `-1` can be, the neighbour is that of the index read as Python reads it |
| Wfc2DOld.Propagate | WaveFunctionCollapse/2D/wfc2d-old.py:180-198 | domains only shrink; nothing changes when the cell is empty or the first revision removes nothing; otherwise the neighbour ends within its revised list; afterwards the arc from `pos` to its torus neighbour holds, every cell that changed is settled on the torus, and the first revision and the recursion together are a pruning: removals lack support and every consistent sub-grid of the start survives |
| Wfc2DOld.PropagateAround | WaveFunctionCollapse/2D/wfc2d-old.py:192-196 | the four recursive calls from the changed neighbour prune the grid (removals lack support, every consistent sub-grid survives) and leave that neighbour, and every cell they changed, settled on the torus |
| Wfc2DOld.PropagateFour | WaveFunctionCollapse/2D/wfc2d-old.py:232-235 | the four calls from the observed position prune the grid (removals lack support, every consistent sub-grid survives) and leave that position, and every cell they changed, settled on the torus |
| Wfc2DOld.ObserveAndPropagate | WaveFunctionCollapse/2D/wfc2d-old.py:231-235 | keeps the grid within the keys and, with no empty cell, crashes exactly on an empty grid or an empty catalog; otherwise the position is `observe`'s last smallest undecided cell when there is one, that cell is collapsed to candidate `draw mod size`, and propagation prunes the collapsed grid, keeping every fitting output that agrees with the collapse, and leaves the cell and every change settled on the torus |
| Wfc2DOld.WFC | WaveFunctionCollapse/2D/wfc2d-old.py:220-252 | a finished run returns a square grid within the catalog keys with one candidate per cell, every torus-adjacent pair of which fits; it crashes iff there is a draw and the grid or the catalog is empty; `OutOfDraws` only after every draw was used |

## Left out

- Image and file I/O: loading and saving pictures, `show()`, the `initWorkspace` file deletion, saving patterns and frames, the frame counter's file names, the `print` calls and the pandas `DataFrame` dump. These are effects outside the solver.
- `imgHash` (md5 of the pixel bytes). It is a foreign call; patterns are keyed by their content, which identifies equal pictures exactly as the hash is meant to.
- PIL internals. `crop`, `paste`, `get_concat_h`, `get_concat_v` and the padded picture of `createPatternsFromImage` are modelled as slicing of columns (`Crop`, `ConcatH`, `ConcatV`, `PadWrap`). These match PIL only when N is at most the picture's width and height: where a box reaches outside the picture, the model clips it, whereas PIL fills the missing area with black. For a larger N the model's keys therefore differ from the program's. Pixel formats are not modelled.
- Rotations. `ROTATIONS` is `False`, and the older file discards the result of `rotate(90)`.
- Dead code:
  - the recursive `__propagate` of the class, which `generate` does not call;
  - `PROP_ID`;
  - the unused second `__hasError`, which is the same scan as `hasError`;
  - `imageFromCells`;
  - the interactive `__main__` blocks.
- `WaveFunctionCollapse/2D/wfc2d.py` is not part of this model: it is file I/O plus a window loop whose result is discarded.
- Randomness. Each `random.randint` is an explicit draw taken mod the cell size; nothing is claimed about distributions.
- Termination of the generators. It depends on the random choices, so the drivers run at most one round per supplied draw and report `OutOfDraws` beyond that. Python's recursion limit is not modelled.
- Wfc2DTest.WFC2D.Generate: the deadlock restart (`self.__reset(); self.generate()`) is bounded by a `restarts` argument. When none is left, the run reports `OutOfRestarts`, and it then promises nothing about empty cells, because a deadlock can be reported during a round whose snapshot has not been restored yet.
- Wfc2DTest.WFC2D.Rounds: it reports the deadlock as `OutOfRestarts`, and `Generate` decides whether to restart. A grid already finished still needs one draw, since the finish is detected by `__observe` inside a round.
- Wfc2DTest.WFC2D.Generate: adjacency soundness is stated for catalogs of at least two keys, and for a starting grid whose changes from the initial grid are settled (as after the constructor or `__reset`, where nothing has changed). With a single key, no cell is ever observed or revised, so nothing about the adjacency rule is claimed.
- Wfc2DOld.Propagate: it takes only the four unit directions, which are the only ones `WFC` and `propagate` itself pass.
- Wfc1DClass.WFC.Generate: the round count and the output length are stated for runs that end `Done`, under the assumption that the marker `EMPTY-CELL` is not itself a pattern. A 10-character pattern equal to it would fool the `while EMPTY_INDICATOR in self.finalstate` test.
- Wfc1DFree.WFC: the same assumption about `EMPTY-CELL`. The printed line is returned as the outcome instead of printed.
- Counts are unbounded naturals; Python integers do not overflow either.
