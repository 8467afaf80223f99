/** Pictures as columns of pixels, `img[x][y]`; PIL's `crop`, `paste` and
    the two concatenations read as slicing of the columns; the pattern catalog of a picture, each pattern keyed by its own
    content; and the adjacency test on two patterns with the constraint
    triples built from it. */
module Patterns2D {
  import opened Lists
  import opened Tally
  import opened Grid2D

  datatype Pixel = RGB(r: int, g: int, b: int)

  /** The fill colour of `Image.new('RGB', size)`. */
  const Black: Pixel := RGB(0, 0, 0)

  type Image = seq<seq<Pixel>>

  function Width(img: Image): nat {
    |img|
  }

  function Height(img: Image): nat {
    if img == [] then 0 else |img[0]|
  }

  /** `img` is `w` columns of `h` pixels each. */
  ghost predicate Rect(img: Image, w: nat, h: nat) {
    |img| == w && forall x :: 0 <= x < w ==> |img[x]| == h
  }

  /** The pixel at `(x, y)`, black outside the picture. */
  function At(img: Image, x: int, y: int): Pixel {
    if 0 <= x < |img| && 0 <= y < |img[x]| then img[x][y] else Black
  }

  /** Column `x` of the picture, empty outside it. */
  function ColumnAt(img: Image, x: int): seq<Pixel> {
    if 0 <= x < |img| then img[x] else []
  }

  /** `crop(img, x, y, w, h)`: the `w` by `h` box with its corner at
      `(x, y)`, read as a slice of the columns and of each column. */
  function Crop(img: Image, x: int, y: int, w: nat, h: nat): Image {
    seq(w, a => PySlice(ColumnAt(img, x + a), y, y + h))
  }

  /** `get_concat_h(im1, im2)`: the columns of `im2` after those of `im1`. */
  function ConcatH(im1: Image, im2: Image): Image {
    im1 + im2
  }

  /** `get_concat_v(im1, im2)`: each column of `im1` continued by the
      column of `im2` at the same place. */
  function ConcatV(im1: Image, im2: Image): Image {
    seq(|im1|, x => ColumnAt(im1, x) + ColumnAt(im2, x))
  }

  /** The padded picture `createPatternsFromImage` cuts its patterns from:
      the source on a canvas `N` pixels wider and taller, with copies of it
      pasted to the right, below and diagonally; the canvas clips each copy
      to its first `N` columns or rows. */
  function PadWrap(src: Image, n: nat): Image {
    var cols := seq(|src|, x => ColumnAt(src, x) + PySlice(ColumnAt(src, x), 0, n));
    cols + PySlice(cols, 0, n)
  }

  /** A box inside the picture is cropped pixel for pixel. */
  lemma CropInside(img: Image, w: nat, h: nat, x: int, y: int, cw: nat, ch: nat)
    requires Rect(img, w, h) && 0 <= x && x + cw <= w && 0 <= y && y + ch <= h
    ensures Rect(Crop(img, x, y, cw, ch), cw, ch)
    ensures forall a, b :: 0 <= a < cw && 0 <= b < ch ==> Crop(img, x, y, cw, ch)[a][b] == img[x + a][y + b]
  {
    forall a | 0 <= a < cw ensures Crop(img, x, y, cw, ch)[a] == img[x + a][y..y + ch] {
      assert Crop(img, x, y, cw, ch)[a] == PySlice(ColumnAt(img, x + a), y, y + ch);
      assert ColumnAt(img, x + a) == img[x + a];
    }
  }

  /** Beyond the picture the crop is clipped rather than filled: a column
      past either side is empty, and a column inside keeps only the rows
      the picture has. */
  lemma CropClips(img: Image, w: nat, h: nat, x: int, y: int, cw: nat, ch: nat)
    requires Rect(img, w, h) && 0 <= y <= h
    ensures |Crop(img, x, y, cw, ch)| == cw
    ensures forall a :: 0 <= a < cw && (x + a < 0 || w <= x + a) ==> Crop(img, x, y, cw, ch)[a] == []
    ensures forall a :: 0 <= a < cw && 0 <= x + a < w ==>
      |Crop(img, x, y, cw, ch)[a]| == if y + ch <= h then ch else h - y
  {
    forall a | 0 <= a < cw ensures Crop(img, x, y, cw, ch)[a] == PySlice(ColumnAt(img, x + a), y, y + ch) {
    }
    forall a | 0 <= a < cw && 0 <= x + a < w
      ensures |Crop(img, x, y, cw, ch)[a]| == if y + ch <= h then ch else h - y
    {
      assert ColumnAt(img, x + a) == img[x + a];
    }
  }

  /** Two pictures of the same height side by side: the pixels of `im1`,
      then those of `im2` shifted right by its width. */
  lemma ConcatHPixels(im1: Image, im2: Image, w1: nat, w2: nat, h: nat)
    requires Rect(im1, w1, h) && Rect(im2, w2, h)
    ensures Rect(ConcatH(im1, im2), w1 + w2, h)
    ensures forall x, y :: 0 <= x < w1 + w2 && 0 <= y < h ==>
      ConcatH(im1, im2)[x][y] == if x < w1 then im1[x][y] else im2[x - w1][y]
  {
  }

  /** Two pictures of the same width stacked: the pixels of `im1`, then
      those of `im2` shifted down by its height. */
  lemma ConcatVPixels(im1: Image, im2: Image, w: nat, h1: nat, h2: nat)
    requires Rect(im1, w, h1) && Rect(im2, w, h2)
    ensures Rect(ConcatV(im1, im2), w, h1 + h2)
    ensures forall x, y :: 0 <= x < w && 0 <= y < h1 + h2 ==>
      ConcatV(im1, im2)[x][y] == if y < h1 then im1[x][y] else im2[x][y - h1]
  {
  }

  /** The `n` by `n` window of the source read as a torus, corner at `(x, y)`. */
  function TorusWindow(src: Image, w: nat, h: nat, x: int, y: int, n: nat): Image
    requires 0 < w && 0 < h
  {
    seq(n, a => seq(n, b => At(src, (x + a) % w, (y + b) % h)))
  }

  lemma ModBelowTwice(x: int, m: int)
    requires 0 < m && 0 <= x < 2 * m
    ensures x % m == if x < m then x else x - m
  {
    if x >= m {
      assert x - m == x % m by {
        assert x == m * 1 + (x - m);
      }
    }
  }

  /** For `N` no larger than either side, the padded picture is `w + N` by
      `h + N`, and each of its pixels is the source pixel at the coordinates
      taken mod the width and the height. */
  lemma PadWrapTorus(src: Image, w: nat, h: nat, n: nat, x: int, y: int)
    requires Rect(src, w, h) && 0 < w && 0 < h && n <= w && n <= h
    requires 0 <= x < w + n && 0 <= y < h + n
    ensures |PadWrap(src, n)| == w + n && |PadWrap(src, n)[x]| == h + n
    ensures PadWrap(src, n)[x][y] == src[x % w][y % h]
  {
    var cols := seq(|src|, x => ColumnAt(src, x) + PySlice(ColumnAt(src, x), 0, n));
    assert PadWrap(src, n) == cols + cols[..n];
    ModBelowTwice(x, w);
    ModBelowTwice(y, h);
    var c := x % w;
    assert PadWrap(src, n)[x] == cols[c];
    assert cols[c] == src[c] + src[c][..n];
  }

  /** The window `crop(img, x, y, N, N)` of the padded picture at a corner
      inside the source is the torus window there. */
  lemma WindowIsTorus(src: Image, w: nat, h: nat, n: nat, x: nat, y: nat)
    requires Rect(src, w, h) && 0 < w && 0 < h && n <= w && n <= h
    requires x < w && y < h
    ensures Crop(PadWrap(src, n), x, y, n, n) == TorusWindow(src, w, h, x, y, n)
  {
    var p := PadWrap(src, n);
    var c := Crop(p, x, y, n, n);
    var t := TorusWindow(src, w, h, x, y, n);
    forall a | 0 <= a < n ensures c[a] == t[a] {
      TorusColumn(src, w, h, n, x + a, y);
    }
  }

  /** One column of a window of the padded picture. */
  lemma TorusColumn(src: Image, w: nat, h: nat, n: nat, x: nat, y: nat)
    requires Rect(src, w, h) && 0 < w && 0 < h && n <= w && n <= h
    requires x < w + n && y < h
    ensures PySlice(ColumnAt(PadWrap(src, n), x), y, y + n) == seq(n, b => At(src, x % w, (y + b) % h))
  {
    var p := PadWrap(src, n);
    PadWrapColumn(src, w, h, n, x);
    ColumnSlice(src, w, h, n, x, y, p[x]);
    assert PySlice(ColumnAt(p, x), y, y + n) == p[x][y..y + n];
  }

  /** Column `x` of the padded picture, pixel by pixel. */
  lemma PadWrapColumn(src: Image, w: nat, h: nat, n: nat, x: nat)
    requires Rect(src, w, h) && 0 < w && 0 < h && n <= w && n <= h && x < w + n
    ensures |PadWrap(src, n)| == w + n && |PadWrap(src, n)[x]| == h + n
    ensures forall y :: 0 <= y < h + n ==> PadWrap(src, n)[x][y] == src[x % w][y % h]
  {
    PadWrapTorus(src, w, h, n, x, 0);
    forall y | 0 <= y < h + n ensures PadWrap(src, n)[x][y] == src[x % w][y % h] {
      PadWrapTorus(src, w, h, n, x, y);
    }
  }

  /** A column that reads column `x mod w` of the source circularly gives,
      from `y` on, the torus column there. */
  lemma ColumnSlice(src: Image, w: nat, h: nat, n: nat, x: nat, y: nat, col: seq<Pixel>)
    requires Rect(src, w, h) && 0 < w && 0 < h && n <= h && y < h
    requires |col| == h + n && forall y' :: 0 <= y' < h + n ==> col[y'] == src[x % w][y' % h]
    ensures col[y..y + n] == seq(n, b => At(src, x % w, (y + b) % h))
  {
    var t := seq(n, b => At(src, x % w, (y + b) % h));
    var c := x % w;
    assert 0 <= c < w && |src[c]| == h;
    forall b | 0 <= b < n ensures col[y..y + n][b] == t[b] {
      var r := (y + b) % h;
      assert 0 <= r < h;
      assert t[b] == At(src, c, r) == src[c][r];
      assert col[y + b] == src[c][r];
    }
  }

  /** The windows of one column `x` of the loops of `createPatternsFromImage`. */
  function Column(img: Image, x: int, h: nat, n: nat): (r: seq<Image>)
    ensures |r| == h
  {
    seq(h, y => Crop(img, x, y, n, n))
  }

  /** The windows the double loop of `createPatternsFromImage` crops, `x`
      outer and `y` inner, over the first `w` columns. */
  function Windows2D(img: Image, w: nat, h: nat, n: nat): seq<Image>
    decreases w
  {
    if w == 0 then [] else Windows2D(img, w - 1, h, n) + Column(img, w - 1, h, n)
  }

  /** `x in range(img.size[0] - N)` and `y in range(img.size[1] - N)` on the
      padded picture: one window per pixel of the source. */
  function SourceWindows(src: Image, n: nat): seq<Image> {
    Windows2D(PadWrap(src, n), Width(src), Height(src), n)
  }

  /** `createPatternsFromImage(imgsrc, N)`: its dict keys, each distinct
      window once in the order of first occurrence. */
  function Catalog2D(src: Image, n: nat): seq<Image> {
    CountAll(SourceWindows(src, n)).keys
  }

  /** The cropped windows are exactly the windows with a corner in the
      first `w` columns and `h` rows. */
  lemma {:induction false} Windows2DSpec(img: Image, w: nat, h: nat, n: nat)
    ensures forall k :: k in Windows2D(img, w, h, n) <==>
      exists x, y :: 0 <= x < w && 0 <= y < h && k == Crop(img, x, y, n, n)
    decreases w
  {
    if w > 0 {
      Windows2DSpec(img, w - 1, h, n);
      forall k | k in Windows2D(img, w, h, n) && k !in Windows2D(img, w - 1, h, n)
        ensures exists x, y :: 0 <= x < w && 0 <= y < h && k == Crop(img, x, y, n, n)
      {
        var y :| 0 <= y < h && Column(img, w - 1, h, n)[y] == k;
        assert k == Crop(img, w - 1, y, n, n);
      }
      forall k | exists x, y :: 0 <= x < w && 0 <= y < h && k == Crop(img, x, y, n, n)
        ensures k in Windows2D(img, w, h, n)
      {
        var x, y :| 0 <= x < w && 0 <= y < h && k == Crop(img, x, y, n, n);
        if x == w - 1 {
          assert Column(img, w - 1, h, n)[y] == k;
        }
      }
    }
  }

  /** `patterns.setdefault(key, 0); patterns[key] = pattern.copy()` on a
      dict keyed by content: the key joins the key list the first time it is
      seen. */
  function AddKey(keys: seq<Image>, k: Image): (r: seq<Image>)
    ensures k in r && forall q :: q in keys ==> q in r
  {
    if k in keys then keys else keys + [k]
  }

  /** Adding the elements of `col` one at a time after those of `pre`
      builds the key list of the whole. */
  lemma ColumnStep(pre: seq<Image>, col: seq<Image>, y: nat)
    requires y < |col|
    ensures CountAll(pre + col[..y + 1]).keys == AddKey(CountAll(pre + col[..y]).keys, col[y])
  {
    assert pre + col[..y + 1] == (pre + col[..y]) + [col[y]];
    CountAllSnoc(pre + col[..y], col[y]);
    CountAllSpec(pre + col[..y]);
  }

  /** The double loop of `createPatternsFromImage(imgsrc, N)` over the
      padded picture, `x` outer and `y` inner. */
  method CreatePatternsFromImage(imgsrc: Image, n: nat) returns (patterns: seq<Image>)
    ensures patterns == Catalog2D(imgsrc, n)
  {
    var img := PadWrap(imgsrc, n);
    var w, h := Width(imgsrc), Height(imgsrc);
    patterns := [];
    var x := 0;
    while x < w
      invariant x <= w
      invariant patterns == CountAll(Windows2D(img, x, h, n)).keys
    {
      patterns := ColumnPatterns(img, x, h, n, Windows2D(img, x, h, n), patterns);
      assert Windows2D(img, x + 1, h, n) == Windows2D(img, x, h, n) + Column(img, x, h, n);
      x := x + 1;
    }
  }

  /** The inner loop of `createPatternsFromImage`: the crops of column `x`,
      added to the keys of the windows `pre` seen so far. */
  method ColumnPatterns(img: Image, x: nat, h: nat, n: nat, ghost pre: seq<Image>, patterns0: seq<Image>)
    returns (patterns: seq<Image>)
    requires patterns0 == CountAll(pre).keys
    ensures patterns == CountAll(pre + Column(img, x, h, n)).keys
  {
    patterns := patterns0;
    ghost var col := Column(img, x, h, n);
    var y := 0;
    assert pre + col[..0] == pre;
    while y < h
      invariant y <= h
      invariant patterns == CountAll(pre + col[..y]).keys
    {
      var pattern := Crop(img, x, y, n, n);
      ColumnStep(pre, col, y);
      patterns := AddKey(patterns, pattern);
      y := y + 1;
    }
    assert col[..y] == col;
  }

  /** For `N` no larger than either side of the source: the catalog keys are
      exactly the `N` by `N` torus windows of the source with a corner inside
      it, each listed once (equal contents share one key). */
  lemma Catalog2DSpec(src: Image, w: nat, h: nat, n: nat)
    requires Rect(src, w, h) && 0 < w && 0 < h && n <= w && n <= h
    ensures Distinct(Catalog2D(src, n))
    ensures forall k :: k in Catalog2D(src, n) <==>
      exists x, y :: 0 <= x < w && 0 <= y < h && k == TorusWindow(src, w, h, x, y, n)
    ensures forall k :: k in Catalog2D(src, n) ==> Rect(k, n, n)
  {
    var img := PadWrap(src, n);
    assert Width(src) == w && Height(src) == h;
    CountAllSpec(SourceWindows(src, n));
    Windows2DSpec(img, w, h, n);
    forall k ensures k in Catalog2D(src, n) <==>
      exists x, y :: 0 <= x < w && 0 <= y < h && k == TorusWindow(src, w, h, x, y, n)
    {
      if k in Catalog2D(src, n) {
        assert k in CountAll(SourceWindows(src, n)).count;
        var x, y :| 0 <= x < w && 0 <= y < h && k == Crop(img, x, y, n, n);
        WindowIsTorus(src, w, h, n, x, y);
      }
      if exists x, y :: 0 <= x < w && 0 <= y < h && k == TorusWindow(src, w, h, x, y, n) {
        var x, y :| 0 <= x < w && 0 <= y < h && k == TorusWindow(src, w, h, x, y, n);
        WindowIsTorus(src, w, h, n, x, y);
        assert k in SourceWindows(src, n);
        assert k in CountAll(SourceWindows(src, n)).count;
      }
    }
  }

  /** The crops of `createPatternsFromImages(img1, img2, dir)`: an
      `img1`-sized frame slid across both pictures side by side (`dir[0]`
      non-zero) or one above the other (`dir[1]` non-zero), at the offsets
      `0 .. width-1` (resp. `height-1`) of `img1`; none for `[0, 0]`. */
  function PairWindows(img1: Image, img2: Image, d: Dir): seq<Image> {
    if d.dx != 0 then
      var c := ConcatH(img1, img2);
      seq(Width(img1), x => Crop(c, x, 0, Width(img1), Height(img1)))
    else if d.dy != 0 then
      var c := ConcatV(img1, img2);
      seq(Height(img1), y => Crop(c, 0, y, Width(img1), Height(img1)))
    else []
  }

  /** The keys of the dict `createPatternsFromImages` / `patternsFromImages`
      returns. */
  function PatternsFromImages(img1: Image, img2: Image, d: Dir): seq<Image> {
    CountAll(PairWindows(img1, img2, d)).keys
  }

  /** The loop of `createPatternsFromImages(img1, img2, dir)` /
      `patternsFromImages`: crop the pair at each offset and key the crops;
      `[0, 0]` yields no key. */
  method CreatePatternsFromImages(img1: Image, img2: Image, d: Dir) returns (found: seq<Image>)
    ensures found == PatternsFromImages(img1, img2, d)
  {
    found := [];
    if d.dx != 0 {
      found := CropsBeside(img1, img2, d);
    } else if d.dy != 0 {
      found := CropsBelow(img1, img2, d);
    }
  }

  /** The `dir[0] != 0` branch of `createPatternsFromImages`: crops of
      `get_concat_h(img1, img2)` at every column offset. */
  method CropsBeside(img1: Image, img2: Image, d: Dir) returns (found: seq<Image>)
    requires d.dx != 0
    ensures found == PatternsFromImages(img1, img2, d)
  {
    found := [];
    ghost var ws := PairWindows(img1, img2, d);
    var concatenated := ConcatH(img1, img2);
    var x := 0;
    while x < Width(img1)
      invariant x <= Width(img1)
      invariant found == CountAll(ws[..x]).keys
    {
      var pattern := Crop(concatenated, x, 0, Width(img1), Height(img1));
      ColumnStep([], ws, x);
      assert [] + ws[..x] == ws[..x] && [] + ws[..x + 1] == ws[..x + 1];
      found := AddKey(found, pattern);
      x := x + 1;
    }
    assert ws[..x] == ws;
  }

  /** The `dir[1] != 0` branch of `createPatternsFromImages`: crops of
      `get_concat_v(img1, img2)` at every row offset. */
  method CropsBelow(img1: Image, img2: Image, d: Dir) returns (found: seq<Image>)
    requires d.dx == 0 && d.dy != 0
    ensures found == PatternsFromImages(img1, img2, d)
  {
    found := [];
    ghost var ws := PairWindows(img1, img2, d);
    var concatenated := ConcatV(img1, img2);
    var y := 0;
    while y < Height(img1)
      invariant y <= Height(img1)
      invariant found == CountAll(ws[..y]).keys
    {
      var pattern := Crop(concatenated, 0, y, Width(img1), Height(img1));
      ColumnStep([], ws, y);
      assert [] + ws[..y] == ws[..y] && [] + ws[..y + 1] == ws[..y + 1];
      found := AddKey(found, pattern);
      y := y + 1;
    }
    assert ws[..y] == ws;
  }

  /** Every crop of the two pictures is a catalog key. */
  predicate Fits(catalog: seq<Image>, img1: Image, img2: Image, d: Dir) {
    forall k :: k in PairWindows(img1, img2, d) ==> k in catalog
  }

  /** `set(foundpatterns) <= set(self.patterns.keys())`, and the loop of the
      older `validate` over the found keys, test exactly `Fits`. */
  lemma FitsKeys(catalog: seq<Image>, img1: Image, img2: Image, d: Dir)
    ensures Fits(catalog, img1, img2, d) <==>
      (set k | k in PatternsFromImages(img1, img2, d)) <= (set k | k in catalog)
    ensures Fits(catalog, img1, img2, d) <==>
      forall t :: 0 <= t < |PatternsFromImages(img1, img2, d)| ==> PatternsFromImages(img1, img2, d)[t] in catalog
  {
    var ws := PairWindows(img1, img2, d);
    var found := PatternsFromImages(img1, img2, d);
    CountAllSpec(ws);
    assert forall k :: k in found <==> k in ws by {
      forall k ensures k in found <==> k in ws {
        assert k in CountAll(ws).count <==> k in ws;
      }
    }
    if Fits(catalog, img1, img2, d) {
      forall t | 0 <= t < |found| ensures found[t] in catalog {
        assert found[t] in ws;
      }
    }
    if forall t :: 0 <= t < |found| ==> found[t] in catalog {
      forall k | k in ws ensures k in catalog {
        assert k in found;
        var t :| 0 <= t < |found| && found[t] == k;
      }
      assert Fits(catalog, img1, img2, d);
    }
    var sf := set k | k in found;
    var sc := set k | k in catalog;
    assert sf <= sc <==> forall k :: k in found ==> k in catalog by {
      if sf <= sc {
        forall k | k in found ensures k in catalog { assert k in sf; }
      }
    }
  }

  /** Beside each other, the `x`-th crop of two `w` by `h` pictures is the
      slice of columns `x .. x+w-1` of the pair: those of `img1` first, then
      those of `img2`. */
  lemma PairWindowsBeside(img1: Image, img2: Image, w: nat, h: nat, d: Dir)
    requires Rect(img1, w, h) && Rect(img2, w, h) && d.dx != 0
    ensures |PairWindows(img1, img2, d)| == w
    ensures forall x :: 0 <= x < w ==> PairWindows(img1, img2, d)[x] == (img1 + img2)[x..x + w]
  {
    assert Width(img1) == w;
    assert w > 0 ==> Height(img1) == h;
    forall x | 0 <= x < w ensures PairWindows(img1, img2, d)[x] == (img1 + img2)[x..x + w] {
      var c := Crop(img1 + img2, x, 0, w, h);
      assert PairWindows(img1, img2, d)[x] == c;
      forall a | 0 <= a < w ensures c[a] == (img1 + img2)[x + a] {
        BesideColumn(img1, img2, w, h, x + a);
      }
    }
  }

  lemma BesideColumn(img1: Image, img2: Image, w: nat, h: nat, x: nat)
    requires Rect(img1, w, h) && Rect(img2, w, h) && x < w + w
    ensures PySlice(ColumnAt(img1 + img2, x), 0, h) == (img1 + img2)[x]
  {
    var col := (img1 + img2)[x];
    if x < w {
      assert col == img1[x];
    } else {
      assert col == img2[x - w];
    }
    assert |col| == h && col[0..h] == col;
  }

  /** One above the other, the `y`-th crop of two `w` by `h` pictures holds
      rows `y .. y+h-1` of the pair: those of `img1` first, then those of
      `img2`. */
  lemma PairWindowsBelow(img1: Image, img2: Image, w: nat, h: nat, d: Dir)
    requires Rect(img1, w, h) && Rect(img2, w, h) && 0 < w && d.dx == 0 && d.dy != 0
    ensures |PairWindows(img1, img2, d)| == h
    ensures forall y :: 0 <= y < h ==> Rect(PairWindows(img1, img2, d)[y], w, h)
    ensures forall y, a, b :: 0 <= y < h && 0 <= a < w && 0 <= b < h ==>
      PairWindows(img1, img2, d)[y][a][b] == if y + b < h then img1[a][y + b] else img2[a][y + b - h]
  {
    assert Width(img1) == w && Height(img1) == h;
    var cv := ConcatV(img1, img2);
    forall y | 0 <= y < h ensures Rect(PairWindows(img1, img2, d)[y], w, h)
      ensures forall a, b :: 0 <= a < w && 0 <= b < h ==>
        PairWindows(img1, img2, d)[y][a][b] == if y + b < h then img1[a][y + b] else img2[a][y + b - h]
    {
      var c := Crop(cv, 0, y, w, h);
      assert PairWindows(img1, img2, d)[y] == c;
      forall a | 0 <= a < w ensures |c[a]| == h
        ensures forall b :: 0 <= b < h ==> c[a][b] == if y + b < h then img1[a][y + b] else img2[a][y + b - h]
      {
        BelowColumn(img1, img2, w, h, a, y);
      }
    }
  }

  lemma BelowColumn(img1: Image, img2: Image, w: nat, h: nat, a: nat, y: nat)
    requires Rect(img1, w, h) && Rect(img2, w, h) && a < w && y < h
    ensures var c := PySlice(ColumnAt(ConcatV(img1, img2), a), y, y + h);
      |c| == h && forall b :: 0 <= b < h ==> c[b] == if y + b < h then img1[a][y + b] else img2[a][y + b - h]
  {
    var col := img1[a] + img2[a];
    assert ColumnAt(ConcatV(img1, img2), a) == col;
    assert |col| == h + h;
  }

  /** `[keyi, keyj, dir]`: pattern `j` may sit at offset `dir` from `i`. */
  datatype Triple = Triple(i: Image, j: Image, d: Dir)

  /** The four tests in the body of the double loop of `__initConstrains`,
      in the order `[1,0]`, `[-1,0]`, `[0,1]`, `[0,-1]`. */
  function PairTriples(cat: seq<Image>, i: Image, j: Image): seq<Triple> {
    (if Fits(cat, i, j, Dir(1, 0)) then [Triple(i, j, Dir(1, 0))] else [])
    + (if Fits(cat, i, j, Dir(-1, 0)) then [Triple(i, j, Dir(-1, 0))] else [])
    + (if Fits(cat, i, j, Dir(0, 1)) then [Triple(i, j, Dir(0, 1))] else [])
    + (if Fits(cat, i, j, Dir(0, -1)) then [Triple(i, j, Dir(0, -1))] else [])
  }

  /** The triples of the inner loop for one `keyi`, over the keys `js`. */
  function RowTriples(cat: seq<Image>, i: Image, js: seq<Image>): seq<Triple>
    decreases |js|
  {
    if js == [] then [] else RowTriples(cat, i, js[..|js| - 1]) + PairTriples(cat, i, js[|js| - 1])
  }

  /** The triples of `__initConstrains`, `keyi` over `lefts` in the outer loop. */
  function AllTriples(cat: seq<Image>, lefts: seq<Image>, js: seq<Image>): seq<Triple>
    decreases |lefts|
  {
    if lefts == [] then [] else AllTriples(cat, lefts[..|lefts| - 1], js) + RowTriples(cat, lefts[|lefts| - 1], js)
  }

  lemma PairTriplesSpec(cat: seq<Image>, i: Image, j: Image)
    ensures forall t :: t in PairTriples(cat, i, j) <==>
      t.i == i && t.j == j && t.d in Directions && Fits(cat, i, j, t.d)
  {
    var e := Directions;
    var p0 := if Fits(cat, i, j, e[0]) then [Triple(i, j, e[0])] else [];
    var p1 := if Fits(cat, i, j, e[1]) then [Triple(i, j, e[1])] else [];
    var p2 := if Fits(cat, i, j, e[2]) then [Triple(i, j, e[2])] else [];
    var p3 := if Fits(cat, i, j, e[3]) then [Triple(i, j, e[3])] else [];
    assert PairTriples(cat, i, j) == p0 + p1 + p2 + p3;
    forall t ensures t in PairTriples(cat, i, j) <==>
      t.i == i && t.j == j && t.d in Directions && Fits(cat, i, j, t.d)
    {
      assert t in PairTriples(cat, i, j) <==> t in p0 || t in p1 || t in p2 || t in p3;
      assert t.d in Directions <==> t.d == e[0] || t.d == e[1] || t.d == e[2] || t.d == e[3];
    }
  }

  lemma RowTriplesSnoc(cat: seq<Image>, i: Image, js: seq<Image>, b: nat)
    requires b < |js|
    ensures RowTriples(cat, i, js[..b + 1]) == RowTriples(cat, i, js[..b]) + PairTriples(cat, i, js[b])
  {
    assert js[..b + 1][..b] == js[..b];
  }

  lemma AllTriplesSnoc(cat: seq<Image>, lefts: seq<Image>, js: seq<Image>, a: nat)
    requires a < |lefts|
    ensures AllTriples(cat, lefts[..a + 1], js) == AllTriples(cat, lefts[..a], js) + RowTriples(cat, lefts[a], js)
  {
    assert lefts[..a + 1][..a] == lefts[..a];
  }

  lemma {:induction false} RowTriplesSpec(cat: seq<Image>, i: Image, js: seq<Image>)
    ensures forall t :: t in RowTriples(cat, i, js) <==>
      t.i == i && t.j in js && t.d in Directions && Fits(cat, i, t.j, t.d)
    decreases |js|
  {
    if js != [] {
      var js' := js[..|js| - 1];
      RowTriplesSpec(cat, i, js');
      PairTriplesSpec(cat, i, js[|js| - 1]);
      assert js == js' + [js[|js| - 1]];
    }
  }

  /** A triple is listed exactly when both keys are listed, the direction is
      one of the four, and the pair of pictures fits the catalog in that
      direction. */
  lemma {:induction false} AllTriplesSpec(cat: seq<Image>, lefts: seq<Image>, js: seq<Image>)
    ensures forall t :: t in AllTriples(cat, lefts, js) <==>
      t.i in lefts && t.j in js && t.d in Directions && Fits(cat, t.i, t.j, t.d)
    decreases |lefts|
  {
    if lefts != [] {
      var lefts' := lefts[..|lefts| - 1];
      AllTriplesSpec(cat, lefts', js);
      RowTriplesSpec(cat, lefts[|lefts| - 1], js);
      assert lefts == lefts' + [lefts[|lefts| - 1]];
    }
  }

  /** `createPatternsFromImages` looks only at whether `dir[0]` (else
      `dir[1]`) is non-zero and always puts `img1` first, so the table lists
      `[i, j, [1,0]]` exactly when it lists `[i, j, [-1,0]]`, and
      `[i, j, [0,1]]` exactly when it lists `[i, j, [0,-1]]`. */
  lemma MirroredTriples(cat: seq<Image>, lefts: seq<Image>, js: seq<Image>, i: Image, j: Image)
    ensures Triple(i, j, Dir(1, 0)) in AllTriples(cat, lefts, js) <==> Triple(i, j, Dir(-1, 0)) in AllTriples(cat, lefts, js)
    ensures Triple(i, j, Dir(0, 1)) in AllTriples(cat, lefts, js) <==> Triple(i, j, Dir(0, -1)) in AllTriples(cat, lefts, js)
  {
    AllTriplesSpec(cat, lefts, js);
    FitsMirrored(cat, i, j);
    assert Dir(1, 0) in Directions && Dir(-1, 0) in Directions;
    assert Dir(0, 1) in Directions && Dir(0, -1) in Directions;
  }

  /** Only the axis of the offset matters to `Fits`. */
  lemma FitsMirrored(cat: seq<Image>, i: Image, j: Image)
    ensures Fits(cat, i, j, Dir(1, 0)) == Fits(cat, i, j, Dir(-1, 0))
    ensures Fits(cat, i, j, Dir(0, 1)) == Fits(cat, i, j, Dir(0, -1))
  {
    assert PairWindows(i, j, Dir(1, 0)) == PairWindows(i, j, Dir(-1, 0));
    assert PairWindows(i, j, Dir(0, 1)) == PairWindows(i, j, Dir(0, -1));
  }
}
