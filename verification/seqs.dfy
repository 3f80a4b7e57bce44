/**
 * Sequences without repeats, and the first-occurrence deduplication that
 * both the graph fold (append a neighbour only if it is not listed yet) and
 * pandas' `drop_duplicates(keep='first')` perform.
 */
module Seqs {

  predicate NoDup<T(==)>(xs: seq<T>) {
    forall i, j :: 0 <= i < j < |xs| ==> xs[i] != xs[j]
  }

  lemma NoDupConcat<T>(a: seq<T>, b: seq<T>)
    requires NoDup(a) && NoDup(b)
    requires forall x :: x in a ==> x !in b
    ensures NoDup(a + b)
  {
    forall i, j | 0 <= i < j < |a + b|
      ensures (a + b)[i] != (a + b)[j]
    {
      if i < |a| && |a| <= j {
        assert (a + b)[i] in a && (a + b)[j] == b[j - |a|];
      }
    }
  }

  lemma ConcatAssoc<T>(a: seq<T>, b: seq<T>, c: seq<T>)
    ensures (a + b) + c == a + (b + c)
  {
  }

  lemma TakeSnoc<T>(s: seq<T>, i: nat)
    requires i < |s|
    ensures s[..i + 1] == s[..i] + [s[i]]
  {
  }

  function Id<T>(x: T): T {
    x
  }

  /** The keys of the elements of `xs`, in order. */
  function KeysOf<T, K>(xs: seq<T>, key: T -> K): (ks: seq<K>)
    ensures |ks| == |xs|
    ensures forall i :: 0 <= i < |xs| ==> ks[i] == key(xs[i])
  {
    seq(|xs|, i requires 0 <= i < |xs| => key(xs[i]))
  }

  /** Where the first element with key `k` stands in `xs`. */
  function FirstWithKey<T, K(==)>(xs: seq<T>, key: T -> K, k: K): (i: nat)
    requires k in KeysOf(xs, key)
    ensures i < |xs| && key(xs[i]) == k
    ensures forall j :: 0 <= j < i ==> key(xs[j]) != k
  {
    if key(xs[0]) == k then 0
    else
      assert k in KeysOf(xs[1..], key) by {
        var j :| 0 <= j < |xs| && KeysOf(xs, key)[j] == k;
        assert KeysOf(xs[1..], key)[j - 1] == k;
      }
      1 + FirstWithKey(xs[1..], key, k)
  }

  lemma FirstWithKeyAppend<T, K>(xs: seq<T>, x: T, key: T -> K, k: K)
    requires k in KeysOf(xs, key)
    ensures k in KeysOf(xs + [x], key)
    ensures FirstWithKey(xs + [x], key, k) == FirstWithKey(xs, key, k)
  {
    var i := FirstWithKey(xs, key, k);
    assert KeysOf(xs + [x], key)[i] == k;
    var i' := FirstWithKey(xs + [x], key, k);
    assert i' <= i;
    assert (xs + [x])[i'] == xs[i'];
  }

  /** The first element of `xs` for each key, in order of first occurrence. */
  function DistinctBy<T, K(==)>(xs: seq<T>, key: T -> K): seq<T> {
    if xs == [] then []
    else
      var d := DistinctBy(xs[..|xs| - 1], key);
      var x := xs[|xs| - 1];
      if key(x) in KeysOf(d, key) then d else d + [x]
  }

  /** An element whose key is new is the first with that key. */
  lemma FirstWithKeyLast<T, K>(init: seq<T>, x: T, key: T -> K)
    requires key(x) !in KeysOf(init, key)
    ensures key(x) in KeysOf(init + [x], key) && FirstWithKey(init + [x], key, key(x)) == |init|
  {
    assert KeysOf(init + [x], key)[|init|] == key(x);
  }

  /** `DistinctBy` loses no key and invents none. */
  lemma {:induction false} DistinctByKeysSame<T, K(!new)>(xs: seq<T>, key: T -> K)
    ensures forall k :: k in KeysOf(DistinctBy(xs, key), key) <==> k in KeysOf(xs, key)
  {
    if xs != [] {
      var init, x := xs[..|xs| - 1], xs[|xs| - 1];
      DistinctByKeysSame(init, key);
      var d := DistinctBy(init, key);
      assert KeysOf(xs, key) == KeysOf(init, key) + [key(x)];
      if key(x) !in KeysOf(d, key) {
        assert KeysOf(DistinctBy(xs, key), key) == KeysOf(d, key) + [key(x)];
      }
    }
  }

  /** The elements `DistinctBy` keeps have pairwise different keys. */
  lemma {:induction false} DistinctByKeysDistinct<T, K(!new)>(xs: seq<T>, key: T -> K)
    ensures forall i, j :: 0 <= i < j < |DistinctBy(xs, key)| ==>
      key(DistinctBy(xs, key)[i]) != key(DistinctBy(xs, key)[j])
  {
    if xs != [] {
      var init, x := xs[..|xs| - 1], xs[|xs| - 1];
      DistinctByKeysDistinct(init, key);
      var d := DistinctBy(init, key);
      if key(x) !in KeysOf(d, key) {
        var r := d + [x];
        forall i, j | 0 <= i < j < |r|
          ensures key(r[i]) != key(r[j])
        {
          if j == |d| {
            assert KeysOf(d, key)[i] == key(r[i]);
          } else {
            assert r[i] == d[i] && r[j] == d[j];
          }
        }
      }
    }
  }

  /**
   * Each kept element is the first element of `xs` with its key, and the
   * kept elements stand in the order in which their keys first occur.
   */
  lemma {:induction false} DistinctByFirsts<T, K(!new)>(xs: seq<T>, key: T -> K)
    ensures forall i :: 0 <= i < |DistinctBy(xs, key)| ==> key(DistinctBy(xs, key)[i]) in KeysOf(xs, key)
    ensures forall i :: 0 <= i < |DistinctBy(xs, key)| ==>
      DistinctBy(xs, key)[i] == xs[FirstWithKey(xs, key, key(DistinctBy(xs, key)[i]))]
    ensures forall i, j :: 0 <= i < j < |DistinctBy(xs, key)| ==>
      FirstWithKey(xs, key, key(DistinctBy(xs, key)[i])) < FirstWithKey(xs, key, key(DistinctBy(xs, key)[j]))
  {
    if xs != [] {
      var init, x := xs[..|xs| - 1], xs[|xs| - 1];
      assert xs == init + [x];
      DistinctByFirsts(init, key);
      var d := DistinctBy(init, key);
      forall i | 0 <= i < |d|
        ensures key(d[i]) in KeysOf(xs, key)
        ensures FirstWithKey(xs, key, key(d[i])) == FirstWithKey(init, key, key(d[i]))
      {
        FirstWithKeyAppend(init, x, key, key(d[i]));
      }
      if key(x) !in KeysOf(d, key) {
        DistinctByKeysSame(init, key);
        var r := d + [x];
        FirstWithKeyLast(init, x, key);
        forall i | 0 <= i < |r|
          ensures key(r[i]) in KeysOf(xs, key) && r[i] == xs[FirstWithKey(xs, key, key(r[i]))]
        {
          if i < |d| {
            assert r[i] == d[i];
          }
        }
        forall i, j | 0 <= i < j < |r|
          ensures FirstWithKey(xs, key, key(r[i])) < FirstWithKey(xs, key, key(r[j]))
        {
          assert r[i] == d[i];
          if j < |d| {
            assert r[j] == d[j];
          }
        }
      }
    }
  }

  /** Every element `DistinctBy` keeps comes from `xs`. */
  lemma {:induction false} DistinctByKeeps<T, K>(xs: seq<T>, key: T -> K, x: T)
    requires x in DistinctBy(xs, key)
    ensures x in xs
  {
    var init := xs[..|xs| - 1];
    assert xs == init + [xs[|xs| - 1]];
    if x in DistinctBy(init, key) {
      DistinctByKeeps(init, key, x);
    }
  }

  /** Every key of `xs` is the key of some element `DistinctBy` keeps. */
  lemma {:induction false} DistinctByCovers<T, K>(xs: seq<T>, key: T -> K, y: T)
    requires y in xs
    ensures exists x :: x in DistinctBy(xs, key) && key(x) == key(y)
  {
    var init, last := xs[..|xs| - 1], xs[|xs| - 1];
    assert xs == init + [last];
    var d := DistinctBy(init, key);
    if y in init {
      DistinctByCovers(init, key, y);
      var x :| x in d && key(x) == key(y);
      assert x in DistinctBy(xs, key);
    } else if key(last) in KeysOf(d, key) {
      var i :| 0 <= i < |d| && KeysOf(d, key)[i] == key(y);
      assert d[i] in DistinctBy(xs, key);
    } else {
      assert last in DistinctBy(xs, key);
    }
  }

  /** A kept element is the first of its key: no element with its key stands before it in `xs`. */
  lemma DistinctByKeepsFirst<T, K(!new)>(xs: seq<T>, key: T -> K, i: nat)
    requires i < |DistinctBy(xs, key)|
    ensures exists f :: (0 <= f < |xs| && xs[f] == DistinctBy(xs, key)[i] &&
                         forall j :: 0 <= j < f ==> key(xs[j]) != key(xs[f]))
  {
    DistinctByFirsts(xs, key);
    var f := FirstWithKey(xs, key, key(DistinctBy(xs, key)[i]));
    assert xs[f] == DistinctBy(xs, key)[i];
  }

  /** Append `x` unless it is already listed: Python's `if x not in xs: xs.append(x)`. */
  function AppendNew<T(==,!new)>(xs: seq<T>, x: T): (r: seq<T>)
    ensures NoDup(xs) ==> NoDup(r)
    ensures forall y :: y in r <==> y in xs || y == x
  {
    if x in xs then xs else xs + [x]
  }

  /** `AppendNew` over a list, one element at a time, is first-occurrence deduplication. */
  lemma {:induction false} AppendNewIsDistinct<T(!new)>(xs: seq<T>, x: T)
    ensures DistinctBy(xs + [x], Id) == AppendNew(DistinctBy(xs, Id), x)
  {
    DistinctByKeysSame(xs, Id);
    var d := DistinctBy(xs, Id);
    assert (xs + [x])[..|xs + [x]| - 1] == xs;
    assert x in KeysOf(d, Id) <==> x in d by {
      if x in d {
        var i :| 0 <= i < |d| && d[i] == x;
        assert KeysOf(d, Id)[i] == x;
      }
    }
  }
}
