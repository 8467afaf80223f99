/** The pattern catalog and adjacency table of the 1-D generator: the
    length-N windows of the sample string, read circularly
    (`getPatternsWrap`, `countPatterns`) or not (`getPatternsNoWrap`,
    `countPatternsNoWrap`), and the pairs `[i, j]` whose concatenation shows
    only known windows. */
module Patterns1D {
  import opened Lists
  import opened Tally

  /** `input[len(input)-N+1:len(input)] + input`: the last N-1 symbols moved in
      front so that windows crossing the end are seen. */
  function WrapInput(s: string, n: nat): string {
    PySlice(s, |s| - n + 1, |s|) + s
  }

  /** `[w[j:j+N] for j in range(0, len(w))]`: one slice per start position,
      the last ones cut short by the end of `w`. */
  function Chunks(w: string, n: nat): (r: seq<string>)
    ensures |r| == |w|
  {
    seq(|w|, j requires 0 <= j < |w| => PySlice(w, j, j + n))
  }

  /** The chunks of length exactly N, in order (the `if len(k)==i` test). */
  function Sized(chunks: seq<string>, n: nat): seq<string>
    decreases |chunks|
  {
    if chunks == [] then []
    else
      var c := chunks[|chunks| - 1];
      Sized(chunks[..|chunks| - 1], n) + (if |c| == n then [c] else [])
  }

  /** `getPatternsWrap(input, N)`, `countPatterns(input, N)` and the class's
      `initPatterns`: the circular windows with their counts. */
  function PatternsWrap(s: string, n: nat): Dict<string> {
    CountAll(Sized(Chunks(WrapInput(s, n), n), n))
  }

  /** `getPatternsNoWrap(input, N)` and `countPatternsNoWrap(input, N)`. */
  function PatternsNoWrap(s: string, n: nat): Dict<string> {
    CountAll(Sized(Chunks(s, n), n))
  }

  /** `getPatternsWrap(input, N)` as written: the chunk loop filling a
      fresh dictionary. */
  method GetPatternsWrap(input: string, nn: nat) returns (patterns: Dict<string>)
    ensures patterns == PatternsWrap(input, nn)
  {
    patterns := Dict([], map[]);
    var i := nn;
    var wrapinput := PySlice(input, |input| - i + 1, |input|) + input;
    var chunks := Chunks(wrapinput, i);
    var t := 0;
    while t < |chunks|
      invariant t <= |chunks|
      invariant patterns == CountAll(Sized(chunks[..t], i))
    {
      var k := chunks[t];
      ChunkStep(chunks, i, t);
      if |k| == i {
        patterns := Bump(patterns, k);
      }
      t := t + 1;
    }
    assert chunks[..t] == chunks;
  }

  /** `getPatternsNoWrap(input, N)` as written. */
  method GetPatternsNoWrap(input: string, nn: nat) returns (patterns: Dict<string>)
    ensures patterns == PatternsNoWrap(input, nn)
  {
    patterns := Dict([], map[]);
    var i := nn;
    var chunks := Chunks(input, i);
    var t := 0;
    while t < |chunks|
      invariant t <= |chunks|
      invariant patterns == CountAll(Sized(chunks[..t], i))
    {
      var k := chunks[t];
      ChunkStep(chunks, i, t);
      if |k| == i {
        patterns := Bump(patterns, k);
      }
      t := t + 1;
    }
    assert chunks[..t] == chunks;
  }

  /** One pass of the chunk loop: a full chunk is counted, a short one
      skipped. */
  lemma ChunkStep(chunks: seq<string>, n: nat, t: nat)
    requires t < |chunks|
    ensures CountAll(Sized(chunks[..t + 1], n)) ==
      if |chunks[t]| == n then Bump(CountAll(Sized(chunks[..t], n)), chunks[t])
      else CountAll(Sized(chunks[..t], n))
  {
    SizedSnoc(chunks, n, t);
    if |chunks[t]| == n {
      CountAllSnoc(Sized(chunks[..t], n), chunks[t]);
    } else {
      assert Sized(chunks[..t], n) + [] == Sized(chunks[..t], n);
    }
  }

  /** One more chunk extends the sized list by that chunk when it is full. */
  lemma SizedSnoc(chunks: seq<string>, n: nat, t: nat)
    requires t < |chunks|
    ensures Sized(chunks[..t + 1], n) == Sized(chunks[..t], n) + (if |chunks[t]| == n then [chunks[t]] else [])
  {
    assert chunks[..t + 1][..t] == chunks[..t];
  }

  /** The n symbols of `s` from position `j` on. */
  function Window(s: string, j: nat, n: nat): (r: string)
    requires j + n <= |s|
    ensures |r| == n
  {
    s[j..j + n]
  }

  /** Reference definition: the contiguous length-n windows of `s`, by start. */
  function Windows(s: string, n: nat): (r: seq<string>)
    ensures n <= |s| ==> |r| == |s| - n + 1
    ensures n > |s| ==> r == []
    ensures forall j :: 0 <= j < |r| ==> j + n <= |s| && r[j] == Window(s, j, n)
  {
    if n > |s| then [] else seq(|s| - n + 1, j requires 0 <= j <= |s| - n => Window(s, j, n))
  }

  /** Reference definition: the n symbols of `s` read circularly from `start`. */
  function CircularWindow(s: string, start: nat, n: nat): (r: string)
    requires |s| > 0
    ensures |r| == n
  {
    seq(n, t requires 0 <= t < n => s[(start + t) % |s|])
  }

  ghost predicate IsCircularWindow(s: string, k: string, n: nat)
    requires |s| > 0
  {
    exists start :: 0 <= start < |s| && k == CircularWindow(s, start, n)
  }

  /** Every sized chunk has length N. */
  lemma {:induction false} SizedLength(chunks: seq<string>, n: nat)
    ensures forall k :: k in Sized(chunks, n) ==> |k| == n
    decreases |chunks|
  {
    if chunks != [] {
      SizedLength(chunks[..|chunks| - 1], n);
    }
  }

  /** The first m chunks keep their windows exactly while a full window fits. */
  lemma {:induction false} SizedPrefix(w: string, n: nat, m: nat)
    requires 1 <= n && m <= |w|
    ensures var ws := Windows(w, n);
      Sized(Chunks(w, n)[..m], n) == ws[..if m < |ws| then m else |ws|]
    decreases m
  {
    var ws := Windows(w, n);
    var cs := Chunks(w, n);
    if m > 0 {
      SizedPrefix(w, n, m - 1);
      assert cs[..m][..m - 1] == cs[..m - 1];
      var c := cs[m - 1];
      assert c == PySlice(w, m - 1, m - 1 + n);
      if m - 1 + n <= |w| {
        assert c == w[m - 1..m - 1 + n];
        assert |ws| == |w| - n + 1 && m - 1 < |ws|;
        assert ws[..m] == ws[..m - 1] + [ws[m - 1]];
      } else {
        assert |c| < n;
      }
    }
  }

  /** For N >= 1 the sized chunks are exactly the contiguous windows. */
  lemma SizedChunks(w: string, n: nat)
    requires 1 <= n
    ensures Sized(Chunks(w, n), n) == Windows(w, n)
  {
    SizedPrefix(w, n, |w|);
    assert Chunks(w, n)[..|w|] == Chunks(w, n);
    var ws := Windows(w, n);
    assert |ws| <= |w|;
    assert ws[..|ws|] == ws;
  }

  /** The keys of `getPatternsNoWrap(s, N)` are exactly the contiguous
      length-N substrings of `s`, and the counts add up to the number of
      start positions, `max(0, len(s)-N+1)`. */
  lemma NoWrapSpec(s: string, n: nat)
    requires 1 <= n
    ensures WellFormed(PatternsNoWrap(s, n))
    ensures forall k :: k in PatternsNoWrap(s, n).count <==>
      exists j :: 0 <= j <= |s| - n && k == Window(s, j, n)
    ensures Total(PatternsNoWrap(s, n).keys, PatternsNoWrap(s, n).count) ==
      if n <= |s| then |s| - n + 1 else 0
  {
    var ws := Windows(s, n);
    SizedChunks(s, n);
    CountAllSpec(ws);
    CountAllTotal(ws);
    forall k ensures k in PatternsNoWrap(s, n).count <==> exists j :: 0 <= j <= |s| - n && k == Window(s, j, n) {
      if k in PatternsNoWrap(s, n).count {
        var j :| 0 <= j < |ws| && ws[j] == k;
        assert k == Window(s, j, n);
      }
      if exists j :: 0 <= j <= |s| - n && k == Window(s, j, n) {
        var j :| 0 <= j <= |s| - n && k == Window(s, j, n);
        assert ws[j] == k;
      }
    }
  }

  /** With 1 <= N <= len(s), the wrapped input is the last N-1 symbols
      followed by the whole string. */
  lemma WrapInputShape(s: string, n: nat)
    requires 1 <= n <= |s|
    ensures WrapInput(s, n) == s[|s| - n + 1..] + s
    ensures forall i :: 0 <= i < |s| + n - 1 ==> WrapInput(s, n)[i] == s[(i + |s| - n + 1) % |s|]
  {
    var w := WrapInput(s, n);
    assert PySlice(s, |s| - n + 1, |s|) == s[|s| - n + 1..];
    forall i | 0 <= i < |s| + n - 1 ensures w[i] == s[(i + |s| - n + 1) % |s|] {
      if i < n - 1 {
        assert w[i] == s[|s| - n + 1 + i];
        ModInRange(i + |s| - n + 1, |s|);
      } else {
        assert w[i] == s[i - (n - 1)];
        ModInRange(i + |s| - n + 1, |s|);
      }
    }
  }

  lemma ModInRange(x: int, m: int)
    requires 0 < m && 0 <= x < 2 * m
    ensures x % m == if x < m then x else x - m
  {
    if x >= m {
      assert x == (x - m) + m;
    }
  }

  /** The windows of the wrapped input are the circular windows of `s`, the
      j-th starting N-1 symbols before position j. */
  lemma WrapWindows(s: string, n: nat)
    requires 1 <= n <= |s|
    ensures |Windows(WrapInput(s, n), n)| == |s|
    ensures forall j :: 0 <= j < |s| ==>
      Windows(WrapInput(s, n), n)[j] == CircularWindow(s, (j + |s| - n + 1) % |s|, n)
  {
    WrapInputShape(s, n);
    forall j | 0 <= j < |s| ensures Windows(WrapInput(s, n), n)[j] == CircularWindow(s, (j + |s| - n + 1) % |s|, n) {
      WrapWindowAt(s, WrapInput(s, n), n, j);
    }
  }

  /** The j-th window of the wrapped input, symbol by symbol. */
  lemma WrapWindowAt(s: string, w: string, n: nat, j: nat)
    requires 1 <= n <= |s| && j < |s| && |w| == |s| + n - 1
    requires forall i :: 0 <= i < |s| + n - 1 ==> w[i] == s[(i + |s| - n + 1) % |s|]
    ensures Window(w, j, n) == CircularWindow(s, (j + |s| - n + 1) % |s|, n)
  {
    WrapSymbols(s, w, n, j, j + |s| - n + 1);
  }

  /** Symbol by symbol, the j-th wrapped window is the circular window
      starting at `x mod len(s)`. */
  lemma WrapSymbols(s: string, w: string, n: nat, j: nat, x: nat)
    requires 1 <= n <= |s| && j < |s| && |w| == |s| + n - 1 && x == j + |s| - n + 1
    requires forall i :: 0 <= i < |s| + n - 1 ==> w[i] == s[(i + |s| - n + 1) % |s|]
    ensures forall t :: 0 <= t < n ==> w[j + t] == CircularWindow(s, x % |s|, n)[t]
  {
    forall t | 0 <= t < n ensures w[j + t] == CircularWindow(s, x % |s|, n)[t] {
      assert w[j + t] == s[(x + t) % |s|];
      ModShift(x, t, |s|);
    }
  }

  /** `(x + t) mod m` may reduce `x` first. */
  lemma ModShift(x: nat, t: nat, m: nat)
    requires 0 < m
    ensures (x + t) % m == (x % m + t) % m
  {
    var q, r := x / m, x % m;
    var q2, r2 := (r + t) / m, (r + t) % m;
    assert x + t == q * m + q2 * m + r2;
    Distribute(q, q2, m);
    ModUnique(x + t, m, q + q2, r2);
  }

  /** `ModShift` with the remainder and the sum given by name. */
  lemma ModShiftAt(x: nat, r: nat, t: nat, y: nat, m: nat)
    requires 0 < m && r == x % m && y == x + t
    ensures y % m == (r + t) % m
  {
    ModShift(x, t, m);
  }

  lemma Distribute(a: int, b: int, m: int)
    ensures a * m + b * m == (a + b) * m
  {
  }

  lemma MulAtLeast(k: int, m: int)
    requires 1 <= k && 0 < m
    ensures k * m >= m
  {
  }

  /** The remainder is determined by any quotient-remainder decomposition. */
  lemma ModUnique(a: int, m: int, q: int, r: int)
    requires 0 < m && 0 <= r < m && a == q * m + r
    ensures a % m == r
  {
    var q', r' := a / m, a % m;
    assert a == q' * m + r';
    Distribute(q, -q', m);
    if q > q' {
      MulAtLeast(q - q', m);
    } else if q < q' {
      MulAtLeast(q' - q, m);
      Distribute(q', -q, m);
    }
  }

  /** Catalog keys are the circular substrings: for 1 <= N <= len(input),
      a key of `getPatternsWrap(input, N)` is a string `k` of length N with
      `k[t] == input[(j+t) mod len]` for some start `j`, and every such string
      is a key. */
  lemma WrapKeysAreCircular(s: string, n: nat)
    requires 1 <= n <= |s|
    ensures forall k :: k in PatternsWrap(s, n).count <==> IsCircularWindow(s, k, n)
  {
    var ws := Windows(WrapInput(s, n), n);
    SizedChunks(WrapInput(s, n), n);
    WrapWindows(s, n);
    CountAllSpec(ws);
    CircularWindowsListed(s, n, ws);
  }

  /** A list holding, at each position j, the circular window starting N-1
      before j lists exactly the circular windows. */
  lemma CircularWindowsListed(s: string, n: nat, ws: seq<string>)
    requires 1 <= n <= |s| && |ws| == |s|
    requires forall j :: 0 <= j < |s| ==> ws[j] == CircularWindow(s, (j + |s| - n + 1) % |s|, n)
    ensures forall k :: k in ws <==> IsCircularWindow(s, k, n)
  {
    forall k | k in ws ensures IsCircularWindow(s, k, n) {
      var j :| 0 <= j < |ws| && ws[j] == k;
      var st := (j + |s| - n + 1) % |s|;
      assert ws[j] == CircularWindow(s, st, n);
    }
    forall k | IsCircularWindow(s, k, n) ensures k in ws {
      var st :| 0 <= st < |s| && k == CircularWindow(s, st, n);
      var j := WindowEndingAt(s, n, st);
      assert ws[j] == k;
    }
  }

  /** The wrapped window that starts, circularly, at `st`. */
  lemma WindowEndingAt(s: string, n: nat, st: nat) returns (j: nat)
    requires 1 <= n <= |s| && st < |s|
    ensures j < |s| && (j + |s| - n + 1) % |s| == st
  {
    j := (st + n - 1) % |s|;
    ModInRange(st + n - 1, |s|);
    ModInRange(j + |s| - n + 1, |s|);
  }

  /** Every catalog key has length N, the key list has no repeats, each key
      is counted as often as it occurs as a window, and for
      1 <= N <= len(input) the counts add up to len(input). */
  lemma WrapCatalogShape(s: string, n: nat)
    ensures WellFormed(PatternsWrap(s, n))
    ensures forall k :: k in PatternsWrap(s, n).keys ==> |k| == n
    ensures 1 <= n <= |s| ==> Total(PatternsWrap(s, n).keys, PatternsWrap(s, n).count) == |s|
  {
    var sized := Sized(Chunks(WrapInput(s, n), n), n);
    CountAllSpec(sized);
    SizedLength(Chunks(WrapInput(s, n), n), n);
    CountAllTotal(sized);
    if 1 <= n <= |s| {
      SizedChunks(WrapInput(s, n), n);
      WrapWindows(s, n);
    }
  }

  /** Every key of the circular catalog has length N. */
  lemma WrapKeyLengths(s: string, n: nat)
    ensures forall k :: k in PatternsWrap(s, n).keys ==> |k| == n
  {
    WrapCatalogShape(s, n);
  }

  /** The overlap test of `initConstrains`: every length-N window of `i + j`
      is already a catalog key. */
  predicate Admissible(catalog: Dict<string>, n: nat, i: string, j: string) {
    forall k :: k in PatternsNoWrap(i + j, n).count ==> k in catalog.count
  }

  /** The overlap test read on positions instead of on the window dictionary. */
  lemma AdmissibleWindows(catalog: Dict<string>, n: nat, i: string, j: string)
    requires 1 <= n
    ensures Admissible(catalog, n, i, j) <==>
      forall t :: 0 <= t <= |i + j| - n ==> Window(i + j, t, n) in catalog.count
  {
    NoWrapSpec(i + j, n);
    if !Admissible(catalog, n, i, j) {
      var k :| k in PatternsNoWrap(i + j, n).count && k !in catalog.count;
      var t :| 0 <= t <= |i + j| - n && k == Window(i + j, t, n);
    } else {
      forall t | 0 <= t <= |i + j| - n ensures Window(i + j, t, n) in catalog.count {
        assert Window(i + j, t, n) in PatternsNoWrap(i + j, n).count;
      }
    }
  }

  datatype Pair = Pair(left: string, right: string)

  /** The pairs `[i, j]` appended for one `i` as `j` runs over `js`. */
  function RowPairs(catalog: Dict<string>, n: nat, i: string, js: seq<string>): seq<Pair>
    decreases |js|
  {
    if js == [] then []
    else
      var j := js[|js| - 1];
      RowPairs(catalog, n, i, js[..|js| - 1]) + (if Admissible(catalog, n, i, j) then [Pair(i, j)] else [])
  }

  /** `initConstrains`: the admissible pairs, `i` in the outer loop. */
  function AllPairs(catalog: Dict<string>, n: nat, lefts: seq<string>, js: seq<string>): seq<Pair>
    decreases |lefts|
  {
    if lefts == [] then []
    else AllPairs(catalog, n, lefts[..|lefts| - 1], js) + RowPairs(catalog, n, lefts[|lefts| - 1], js)
  }

  /** `set(foundpatterns) <= set(self.patterns.keys())` is the overlap test. */
  lemma AdmissibleKeys(catalog: Dict<string>, n: nat, i: string, j: string)
    ensures Admissible(catalog, n, i, j) <==> PatternsNoWrap(i + j, n).count.Keys <= catalog.count.Keys
  {
  }

  /** The inner loop of `initConstrains` after one more `j`. */
  lemma RowPairsSnoc(catalog: Dict<string>, n: nat, i: string, js: seq<string>, b: nat)
    requires b < |js|
    ensures RowPairs(catalog, n, i, js[..b + 1]) ==
      RowPairs(catalog, n, i, js[..b]) + (if Admissible(catalog, n, i, js[b]) then [Pair(i, js[b])] else [])
  {
    assert js[..b + 1][..b] == js[..b];
  }

  /** The outer loop of `initConstrains` after one more `i`. */
  lemma AllPairsSnoc(catalog: Dict<string>, n: nat, lefts: seq<string>, js: seq<string>, a: nat)
    requires a < |lefts|
    ensures AllPairs(catalog, n, lefts[..a + 1], js) ==
      AllPairs(catalog, n, lefts[..a], js) + RowPairs(catalog, n, lefts[a], js)
  {
    assert lefts[..a + 1][..a] == lefts[..a];
  }

  lemma {:induction false} RowPairsSpec(catalog: Dict<string>, n: nat, i: string, js: seq<string>)
    ensures forall p :: p in RowPairs(catalog, n, i, js) <==>
      p.left == i && p.right in js && Admissible(catalog, n, i, p.right)
    decreases |js|
  {
    if js != [] {
      RowPairsSpec(catalog, n, i, js[..|js| - 1]);
      assert js == js[..|js| - 1] + [js[|js| - 1]];
    }
  }

  /** `[i, j]` is in `constrains` iff both are catalog keys and every
      length-N window of `i + j` is a catalog key. */
  lemma {:induction false} AllPairsSpec(catalog: Dict<string>, n: nat, lefts: seq<string>, js: seq<string>)
    ensures forall p :: p in AllPairs(catalog, n, lefts, js) <==>
      p.left in lefts && p.right in js && Admissible(catalog, n, p.left, p.right)
    decreases |lefts|
  {
    if lefts != [] {
      AllPairsSpec(catalog, n, lefts[..|lefts| - 1], js);
      RowPairsSpec(catalog, n, lefts[|lefts| - 1], js);
      assert lefts == lefts[..|lefts| - 1] + [lefts[|lefts| - 1]];
    }
  }

  /** Over a circular catalog every key has an admissible left neighbour and
      an admissible right neighbour: the window N positions earlier
      (respectively later) in the sample. */
  lemma {:induction false} CircularNeighbours(s: string, n: nat, k: string)
    requires 1 <= n <= |s|
    requires k in PatternsWrap(s, n).count
    ensures exists i :: i in PatternsWrap(s, n).count && Admissible(PatternsWrap(s, n), n, i, k)
    ensures exists j :: j in PatternsWrap(s, n).count && Admissible(PatternsWrap(s, n), n, k, j)
  {
    WrapKeysAreCircular(s, n);
    var st :| 0 <= st < |s| && k == CircularWindow(s, st, n);
    var before := (st + |s| - n) % |s|;
    ModInRange(st + |s| - n, |s|);
    ModInRange(before + n, |s|);
    assert (before + n) % |s| == st;
    var i := CircularWindow(s, before, n);
    var j := CircularWindow(s, (st + n) % |s|, n);
    assert IsCircularWindow(s, i, n);
    assert IsCircularWindow(s, j, n);
    CircularPairAdmissible(s, n, before);
    CircularPairAdmissible(s, n, st);
  }

  /** The circular window at `a` followed by the one N positions later is an
      admissible pair of the circular catalog. */
  lemma CircularPairAdmissible(s: string, n: nat, a: nat)
    requires 1 <= n <= |s| && a < |s|
    ensures Admissible(PatternsWrap(s, n), n, CircularWindow(s, a, n), CircularWindow(s, (a + n) % |s|, n))
  {
    var cat := PatternsWrap(s, n);
    var i, j := CircularWindow(s, a, n), CircularWindow(s, (a + n) % |s|, n);
    WrapKeysAreCircular(s, n);
    ConcatCircular(s, n, a, (a + n) % |s|);
    AdmissibleWindows(cat, n, i, j);
  }

  /** Two circular windows, the second starting N after the first, join into
      a string whose every length-N window is circular. */
  lemma ConcatCircular(s: string, n: nat, a: nat, b: nat)
    requires 1 <= n <= |s| && a < |s| && b == (a + n) % |s|
    ensures forall t :: 0 <= t <= n ==>
      IsCircularWindow(s, Window(CircularWindow(s, a, n) + CircularWindow(s, b, n), t, n), n)
  {
    var c := CircularWindow(s, a, n) + CircularWindow(s, b, n);
    ConcatSymbols(s, n, a, b, c);
    forall t | 0 <= t <= n ensures IsCircularWindow(s, Window(c, t, n), n) {
      InnerWindow(s, n, a, c, t);
    }
  }

  /** The joined pair reads `s` circularly from `a` for 2N symbols. */
  lemma ConcatSymbols(s: string, n: nat, a: nat, b: nat, c: string)
    requires 1 <= n <= |s| && a < |s| && b == (a + n) % |s|
    requires c == CircularWindow(s, a, n) + CircularWindow(s, b, n)
    ensures |c| == 2 * n
    ensures forall u :: 0 <= u < 2 * n ==> c[u] == s[(a + u) % |s|]
  {
    forall u | 0 <= u < 2 * n ensures c[u] == s[(a + u) % |s|] {
      if u >= n {
        assert c[u] == CircularWindow(s, b, n)[u - n];
        SecondHalf(s, n, a, b, CircularWindow(s, b, n), u - n);
      }
    }
  }

  /** Symbol v of the circular window starting at `(a + N) mod len(s)` is
      symbol `N + v` read from `a`. */
  lemma SecondHalf(s: string, n: nat, a: nat, b: nat, cw: string, v: nat)
    requires |s| > 0 && b == (a + n) % |s| && cw == CircularWindow(s, b, n) && v < n
    ensures cw[v] == s[(a + (n + v)) % |s|]
  {
    assert cw[v] == s[(b + v) % |s|];
    ModShiftAt(a + n, b, v, a + (n + v), |s|);
  }

  /** A string that reads `s` circularly from `a` has, at offset t, the
      circular window starting at `a + t`. */
  lemma InnerWindow(s: string, n: nat, a: nat, c: string, t: nat)
    requires 1 <= n <= |s| && |c| == 2 * n && t <= n
    requires forall u :: 0 <= u < 2 * n ==> c[u] == s[(a + u) % |s|]
    ensures Window(c, t, n) == CircularWindow(s, (a + t) % |s|, n)
    ensures IsCircularWindow(s, Window(c, t, n), n)
  {
    InnerSymbols(s, n, a, c, t, CircularWindow(s, (a + t) % |s|, n));
  }

  /** Symbol by symbol, the window of `c` at offset t is circular. */
  lemma InnerSymbols(s: string, n: nat, a: nat, c: string, t: nat, cw: string)
    requires 1 <= n <= |s| && |c| == 2 * n && t <= n && cw == CircularWindow(s, (a + t) % |s|, n)
    requires forall u :: 0 <= u < 2 * n ==> c[u] == s[(a + u) % |s|]
    ensures forall v :: 0 <= v < n ==> c[t + v] == cw[v]
  {
    forall v | 0 <= v < n ensures c[t + v] == cw[v] {
      InnerSymbol(s, a + t, v, c[t + v], cw[v]);
    }
  }

  /** A symbol read at `x + v` is the one read at `(x mod len) + v`. */
  lemma InnerSymbol(s: string, x: nat, v: nat, l: char, r: char)
    requires |s| > 0 && l == s[(x + v) % |s|] && r == s[(x % |s| + v) % |s|]
    ensures l == r
  {
    ModShift(x, v, |s|);
  }
}
