/** Sequence vocabulary shared by every solver: order-preserving sub-lists,
    duplicate-freeness, the filtered candidate list every `validate` builds,
    Python slicing and `''.join`. */
module Lists {

  /** Every element occurs at most once. */
  ghost predicate Distinct<T>(s: seq<T>) {
    forall i, j :: 0 <= i < j < |s| ==> s[i] != s[j]
  }

  /** `xs` is `ys` with some elements deleted, the rest kept in order. */
  predicate Subseq<T(==)>(xs: seq<T>, ys: seq<T>)
    decreases |ys|
  {
    if xs == [] then true
    else if ys == [] then false
    else if xs[|xs| - 1] == ys[|ys| - 1] then Subseq(xs[..|xs| - 1], ys[..|ys| - 1])
    else Subseq(xs, ys[..|ys| - 1])
  }

  lemma {:induction false} SubseqRefl<T>(xs: seq<T>)
    ensures Subseq(xs, xs)
    decreases |xs|
  {
    if xs != [] {
      SubseqRefl(xs[..|xs| - 1]);
    }
  }

  /** A sub-list is no longer than the list and draws its elements from it. */
  lemma {:induction false} SubseqBounds<T>(xs: seq<T>, ys: seq<T>)
    requires Subseq(xs, ys)
    ensures |xs| <= |ys|
    ensures multiset(xs) <= multiset(ys)
    ensures forall x :: x in xs ==> x in ys
    decreases |ys|
  {
    if xs != [] {
      var xs', ys' := xs[..|xs| - 1], ys[..|ys| - 1];
      assert xs == xs' + [xs[|xs| - 1]];
      assert ys == ys' + [ys[|ys| - 1]];
      if xs[|xs| - 1] == ys[|ys| - 1] {
        SubseqBounds(xs', ys');
      } else {
        SubseqBounds(xs, ys');
      }
    }
  }

  /** A sub-list as long as the list is the list itself. */
  lemma {:induction false} SubseqSameLength<T>(xs: seq<T>, ys: seq<T>)
    requires Subseq(xs, ys) && |xs| == |ys|
    ensures xs == ys
    decreases |ys|
  {
    if xs != [] {
      var xs', ys' := xs[..|xs| - 1], ys[..|ys| - 1];
      if xs[|xs| - 1] == ys[|ys| - 1] {
        SubseqSameLength(xs', ys');
        assert xs == xs' + [xs[|xs| - 1]];
        assert ys == ys' + [ys[|ys| - 1]];
      } else {
        SubseqBounds(xs, ys');
      }
    }
  }

  lemma {:induction false} SubseqTrans<T>(xs: seq<T>, ys: seq<T>, zs: seq<T>)
    requires Subseq(xs, ys) && Subseq(ys, zs)
    ensures Subseq(xs, zs)
    decreases |zs|
  {
    if xs != [] {
      SubseqBounds(xs, ys);
      SubseqBounds(ys, zs);
      var xs', ys', zs' := xs[..|xs| - 1], ys[..|ys| - 1], zs[..|zs| - 1];
      assert zs == zs' + [zs[|zs| - 1]];
      if ys[|ys| - 1] == zs[|zs| - 1] {
        if xs[|xs| - 1] == ys[|ys| - 1] {
          SubseqTrans(xs', ys', zs');
        } else {
          SubseqTrans(xs, ys', zs');
          SubseqSnoc(xs, zs', zs[|zs| - 1]);
        }
      } else {
        SubseqTrans(xs, ys, zs');
        SubseqSnoc(xs, zs', zs[|zs| - 1]);
      }
    }
  }

  /** Appending to the longer list keeps a sub-list a sub-list. */
  lemma {:induction false} SubseqSnoc<T>(xs: seq<T>, ys: seq<T>, y: T)
    requires Subseq(xs, ys)
    ensures Subseq(xs, ys + [y])
    decreases |ys|, 1
  {
    assert (ys + [y])[..|ys|] == ys;
    if xs != [] && xs[|xs| - 1] == y {
      SubseqDropLast(xs, ys);
    }
  }

  /** Dropping the last element of a sub-list keeps it a sub-list. */
  lemma {:induction false} SubseqDropLast<T>(xs: seq<T>, ys: seq<T>)
    requires Subseq(xs, ys) && xs != []
    ensures Subseq(xs[..|xs| - 1], ys)
    decreases |ys|, 0
  {
    var xs' := xs[..|xs| - 1];
    var ys' := ys[..|ys| - 1];
    assert ys' + [ys[|ys| - 1]] == ys;
    if xs[|xs| - 1] == ys[|ys| - 1] {
      SubseqSnoc(xs', ys', ys[|ys| - 1]);
    } else {
      SubseqDropLast(xs, ys');
      SubseqSnoc(xs', ys', ys[|ys| - 1]);
    }
  }

  /** Extending both lists by the same element, and keeping it or not in
      the shorter one, keeps a sub-list a sub-list. */
  lemma SubseqKeep<T>(xs: seq<T>, ys: seq<T>, keep: bool, y: T)
    requires Subseq(xs, ys)
    ensures Subseq(xs + (if keep then [y] else []), ys + [y])
  {
    assert (ys + [y])[..|ys|] == ys;
    if keep {
      assert (xs + [y])[..|xs|] == xs;
    } else {
      assert xs + [] == xs;
      SubseqSnoc(xs, ys, y);
    }
  }

  /** A single listed element is a sub-list. */
  lemma {:induction false} SubseqSingleton<T>(x: T, ys: seq<T>)
    requires x in ys
    ensures Subseq([x], ys)
    decreases |ys|
  {
    if ys[|ys| - 1] != x {
      var ys' := ys[..|ys| - 1];
      assert ys == ys' + [ys[|ys| - 1]];
      SubseqSingleton(x, ys');
    }
  }

  /** A sub-list of a duplicate-free list is duplicate-free. */
  lemma {:induction false} SubseqDistinct<T>(xs: seq<T>, ys: seq<T>)
    requires Subseq(xs, ys) && Distinct(ys)
    ensures Distinct(xs)
    decreases |ys|
  {
    if xs != [] {
      var xs', ys' := xs[..|xs| - 1], ys[..|ys| - 1];
      assert Distinct(ys');
      if xs[|xs| - 1] == ys[|ys| - 1] {
        SubseqDistinct(xs', ys');
        SubseqBounds(xs', ys');
        assert xs == xs' + [xs[|xs| - 1]];
        forall i | 0 <= i < |xs'| ensures xs'[i] != xs[|xs| - 1] {
          assert xs'[i] in ys';
        }
      } else {
        SubseqDistinct(xs, ys');
      }
    }
  }

  /** The candidates of `ys` that lie in `ok`, each kept once, in the order of
      first occurrence: the list every `validate` builds in `newcell`. */
  function Refine<T(==)>(ys: seq<T>, ok: set<T>): seq<T>
    decreases |ys|
  {
    if ys == [] then []
    else
      var r := Refine(ys[..|ys| - 1], ok);
      var y := ys[|ys| - 1];
      if y in ok && y !in r then r + [y] else r
  }

  /** The refined list holds exactly the listed candidates that are allowed,
      without duplicates, as an order-preserving sub-list. */
  lemma {:induction false} RefineSpec<T>(ys: seq<T>, ok: set<T>)
    ensures forall x :: x in Refine(ys, ok) ==> x in ys && x in ok
    ensures forall x :: x in ys && x in ok ==> x in Refine(ys, ok)
    ensures Distinct(Refine(ys, ok))
    ensures Subseq(Refine(ys, ok), ys)
    decreases |ys|
  {
    if ys != [] {
      var ys' := ys[..|ys| - 1];
      var y := ys[|ys| - 1];
      var r := Refine(ys', ok);
      RefineSpec(ys', ok);
      assert ys == ys' + [y];
      if y in ok && y !in r {
        assert Refine(ys, ok) == r + [y];
        assert Subseq(r + [y], ys) by {
          assert (r + [y])[..|r|] == r;
        }
      } else {
        SubseqSnoc(r, ys', y);
      }
    }
  }

  /** `validate`'s change flag compares multisets; for the refined list this
      says exactly that candidates were removed. */
  lemma RefineChanged<T>(ys: seq<T>, ok: set<T>)
    ensures multiset(Refine(ys, ok)) != multiset(ys) <==> |Refine(ys, ok)| < |ys|
  {
    var r := Refine(ys, ok);
    RefineSpec(ys, ok);
    SubseqBounds(r, ys);
    if |r| == |ys| {
      SubseqSameLength(r, ys);
    }
  }

  /** A duplicate-free list whose candidates are all allowed is left as it is. */
  lemma {:induction false} RefineFixed<T>(ys: seq<T>, ok: set<T>)
    requires Distinct(ys)
    requires forall y :: y in ys ==> y in ok
    ensures Refine(ys, ok) == ys
    decreases |ys|
  {
    if ys != [] {
      var ys' := ys[..|ys| - 1];
      assert Distinct(ys');
      RefineFixed(ys', ok);
      assert ys[|ys| - 1] !in ys';
      assert ys == ys' + [ys[|ys| - 1]];
    }
  }

  /** Refining twice against the same allowed set changes nothing more. */
  lemma {:induction false} RefineIdempotent<T>(ys: seq<T>, ok: set<T>)
    ensures Refine(Refine(ys, ok), ok) == Refine(ys, ok)
  {
    RefineSpec(ys, ok);
    RefineFixed(Refine(ys, ok), ok);
  }

  /** Python's normalisation of a slice bound against a sequence of length `len`. */
  function SliceBound(i: int, len: nat): (b: nat)
    ensures b <= len
    ensures 0 <= i <= len ==> b == i
  {
    if i < 0 then (if i + len < 0 then 0 else i + len)
    else if i > len then len
    else i
  }

  /** Python's reading of an index that may be negative. */
  function PyIndex(i: int, len: nat): int {
    if i < 0 then i + len else i
  }

  /** Python's `s[lo:hi]`: negative bounds count from the end, bounds past
      the end are clamped, a crossed range is empty. */
  function PySlice<T>(s: seq<T>, lo: int, hi: int): (r: seq<T>)
    ensures |r| <= |s|
    ensures 0 <= lo <= hi <= |s| ==> r == s[lo..hi]
    ensures 0 <= lo <= |s| <= hi ==> r == s[lo..]
    ensures |s| <= lo ==> r == []
  {
    var a, b := SliceBound(lo, |s|), SliceBound(hi, |s|);
    if a < b then s[a..b] else []
  }

  /** Python's `''.join(parts)`. */
  function Join(parts: seq<string>): string
    decreases |parts|
  {
    if parts == [] then "" else Join(parts[..|parts| - 1]) + parts[|parts| - 1]
  }

  /** Joining `m` parts of length `n` gives `m * n` characters. */
  lemma {:induction false} JoinLength(parts: seq<string>, n: nat)
    requires forall i :: 0 <= i < |parts| ==> |parts[i]| == n
    ensures |Join(parts)| == |parts| * n
    decreases |parts|
  {
    if parts != [] {
      JoinLength(parts[..|parts| - 1], n);
      assert |parts| * n == (|parts| - 1) * n + n;
    }
  }
}
