/** The Python dictionary every pattern extractor fills with
    `patterns.setdefault(k, 0); patterns[k] += 1`: its keys in insertion
    order and the number of times each key was seen. */
module Tally {
  import opened Lists

  datatype Dict<K> = Dict(keys: seq<K>, count: map<K, nat>)

  /** Dictionary shape: the key list has no repeats and lists exactly the
      keys that carry a count. */
  ghost predicate WellFormed<K>(d: Dict<K>) {
    && Distinct(d.keys)
    && (forall k :: k in d.count ==> k in d.keys)
    && (forall k :: k in d.keys ==> k in d.count)
  }

  /** `d.setdefault(k, 0); d[k] += 1`. */
  function Bump<K>(d: Dict<K>, k: K): Dict<K> {
    if k in d.count then Dict(d.keys, d.count[k := d.count[k] + 1])
    else Dict(d.keys + [k], d.count[k := 1])
  }

  /** The dictionary after feeding every element of `xs` to `Bump`, in order. */
  function CountAll<K>(xs: seq<K>): Dict<K>
    decreases |xs|
  {
    if xs == [] then Dict([], map[]) else Bump(CountAll(xs[..|xs| - 1]), xs[|xs| - 1])
  }

  lemma CountAllSnoc<K>(xs: seq<K>, k: K)
    ensures CountAll(xs + [k]) == Bump(CountAll(xs), k)
  {
    assert (xs + [k])[..|xs|] == xs;
  }

  /** The sum of the values of a dictionary, taken over its key list. */
  function Total<K>(keys: seq<K>, count: map<K, nat>): nat
    decreases |keys|
  {
    if keys == [] then 0
    else
      var k := keys[|keys| - 1];
      Total(keys[..|keys| - 1], count) + (if k in count then count[k] else 0)
  }

  /** The counted dictionary is well formed, its keys are exactly the
      elements of `xs` in order of first occurrence, and each value is the
      number of occurrences of its key. */
  lemma {:induction false} CountAllSpec<K>(xs: seq<K>)
    ensures WellFormed(CountAll(xs))
    ensures forall k :: k in CountAll(xs).count <==> k in xs
    ensures forall k :: k in CountAll(xs).count ==> CountAll(xs).count[k] == multiset(xs)[k]
    ensures CountAll(xs).keys == Refine(xs, set x | x in xs)
    decreases |xs|
  {
    if xs != [] {
      var xs' := xs[..|xs| - 1];
      var x := xs[|xs| - 1];
      assert xs == xs' + [x];
      CountAllSpec(xs');
      BumpSpec(CountAll(xs'), x);
      assert forall k :: multiset(xs)[k] == multiset(xs')[k] + (if k == x then 1 else 0);
      KeysAsRefine(xs, set y | y in xs);
    }
  }

  /** `Bump` keeps the dictionary well formed and adds one to the count of
      its key, entering it with count 1 when it was absent. */
  lemma BumpSpec<K>(d: Dict<K>, k: K)
    requires WellFormed(d)
    ensures WellFormed(Bump(d, k))
    ensures forall j :: j in Bump(d, k).count <==> j in d.count || j == k
    ensures forall j :: j in Bump(d, k).count ==>
      Bump(d, k).count[j] == (if j in d.count then d.count[j] else 0) + (if j == k then 1 else 0)
  {
  }

  /** The insertion order of the keys is that of `Refine` against any set
      containing every element. */
  lemma {:induction false} KeysAsRefine<K>(xs: seq<K>, all: set<K>)
    requires forall x :: x in xs ==> x in all
    ensures CountAll(xs).keys == Refine(xs, all)
    ensures forall k :: k in CountAll(xs).count <==> k in CountAll(xs).keys
    decreases |xs|
  {
    if xs != [] {
      var xs' := xs[..|xs| - 1];
      assert forall x :: x in xs' ==> x in xs;
      KeysAsRefine(xs', all);
    }
  }

  /** A dictionary holding an entry for every element of a list ends up with
      values summing to the length of the list. */
  lemma {:induction false} CountAllTotal<K>(xs: seq<K>)
    ensures Total(CountAll(xs).keys, CountAll(xs).count) == |xs|
    decreases |xs|
  {
    if xs != [] {
      var xs' := xs[..|xs| - 1];
      var d := CountAll(xs');
      CountAllTotal(xs');
      CountAllSpec(xs');
      BumpTotal(d, xs[|xs| - 1]);
    }
  }

  lemma BumpTotal<K>(d: Dict<K>, k: K)
    requires WellFormed(d)
    ensures Total(Bump(d, k).keys, Bump(d, k).count) == Total(d.keys, d.count) + 1
  {
    if k in d.count {
      TotalUpdate(d.keys, d.count, k, d.count[k] + 1);
    } else {
      TotalUpdate(d.keys, d.count, k, 1);
      assert (d.keys + [k])[..|d.keys|] == d.keys;
    }
  }

  /** Changing the value of one key changes the total by the difference,
      counted once when the key is listed once and not at all when unlisted. */
  lemma {:induction false} TotalUpdate<K>(keys: seq<K>, count: map<K, nat>, k: K, v: nat)
    requires Distinct(keys)
    ensures k in keys && k in count ==> Total(keys, count[k := v]) == Total(keys, count) - count[k] + v
    ensures k !in keys ==> Total(keys, count[k := v]) == Total(keys, count)
    decreases |keys|
  {
    if keys != [] {
      var keys' := keys[..|keys| - 1];
      assert Distinct(keys');
      TotalUpdate(keys', count, k, v);
      assert keys == keys' + [keys[|keys| - 1]];
      if k == keys[|keys| - 1] {
        assert k !in keys';
      }
    }
  }
}
