/** Sequence helpers shared by the model: the `Array.prototype.filter` the
    ledger code uses everywhere, and distinctness of a key over a sequence. */
module Seqs {
  import opened Wrappers

  /** `s.filter(p)`: the elements of `s` that satisfy `p`, in their order.
      Defined from the back so that it unfolds like a loop over a prefix. */
  function Filter<T(!new)>(s: seq<T>, p: T -> bool): (r: seq<T>)
    ensures |r| <= |s|
    decreases |s|
  {
    if s == [] then []
    else Filter(s[..|s| - 1], p) + (if p(s[|s| - 1]) then [s[|s| - 1]] else [])
  }

  /** The filter keeps exactly the elements that satisfy `p`. */
  lemma {:induction false} FilterMembers<T(!new)>(s: seq<T>, p: T -> bool)
    ensures forall x :: x in Filter(s, p) <==> x in s && p(x)
    decreases |s|
  {
    if s != [] {
      var init := s[..|s| - 1];
      FilterMembers(init, p);
      assert s == init + [s[|s| - 1]];
    }
  }

  /** Filtering distributes over concatenation. */
  lemma {:induction false} FilterConcat<T(!new)>(a: seq<T>, b: seq<T>, p: T -> bool)
    ensures Filter(a + b, p) == Filter(a, p) + Filter(b, p)
    decreases |b|
  {
    if b == [] {
      assert a + b == a;
    } else {
      var b' := b[..|b| - 1];
      assert (a + b)[..|a + b| - 1] == a + b';
      assert (a + b)[|a + b| - 1] == b[|b| - 1];
      FilterConcat(a, b', p);
    }
  }

  /** Filtering a one-element sequence. */
  lemma FilterSingle<T(!new)>(x: T, p: T -> bool)
    ensures Filter([x], p) == if p(x) then [x] else []
  {
    assert [x][..0] == [];
  }

  /** A filter that keeps the element at every index is the identity. */
  lemma {:induction false} FilterKeepsEvery<T(!new)>(s: seq<T>, p: T -> bool)
    requires forall k :: 0 <= k < |s| ==> p(s[k])
    ensures Filter(s, p) == s
    decreases |s|
  {
    if s != [] {
      var init := s[..|s| - 1];
      assert init + [s[|s| - 1]] == s;
      FilterKeepsEvery(init, p);
    }
  }

  /** A filter that keeps every element is the identity. */
  lemma FilterAll<T(!new)>(s: seq<T>, p: T -> bool)
    requires forall x :: x in s ==> p(x)
    ensures Filter(s, p) == s
  {
    assert forall k :: 0 <= k < |s| ==> s[k] in s;
    FilterKeepsEvery(s, p);
  }

  /** A filter that keeps no element gives the empty sequence. */
  lemma {:induction false} FilterNone<T(!new)>(s: seq<T>, p: T -> bool)
    requires forall x :: x in s ==> !p(x)
    ensures Filter(s, p) == []
    decreases |s|
  {
    if s != [] {
      var s' := s[..|s| - 1];
      assert forall x :: x in s' ==> x in s;
      FilterNone(s', p);
    }
  }

  /** Filtering by `p` and then by a stronger `q` is filtering by `q`. */
  lemma {:induction false} FilterNested<T(!new)>(s: seq<T>, p: T -> bool, q: T -> bool)
    requires forall x :: q(x) ==> p(x)
    ensures Filter(Filter(s, p), q) == Filter(s, q)
    decreases |s|
  {
    if s != [] {
      var s' := s[..|s| - 1];
      var x := s[|s| - 1];
      var tail := if p(x) then [x] else [];
      FilterConcat(Filter(s', p), tail, q);
      FilterNested(s', p, q);
      if p(x) {
        assert tail[..0] == [];
        assert Filter(tail, q) == (if q(x) then [x] else []);
      }
    }
  }

  /** The number of elements before index `i` that the filter keeps: the
      position a kept `s[i]` takes in `Filter(s, p)`. */
  function KeptBefore<T(!new)>(s: seq<T>, p: T -> bool, i: nat): nat
    requires i <= |s|
  {
    |Filter(s[..i], p)|
  }

  /** A kept element sits in the filter at the position `KeptBefore` gives,
      and a kept element before another sits before it: the filter keeps the
      relative order of what it keeps. */
  lemma FilterPosition<T(!new)>(s: seq<T>, p: T -> bool, i: nat, j: nat)
    requires i < j < |s| && p(s[i]) && p(s[j])
    ensures KeptBefore(s, p, i) < KeptBefore(s, p, j) < |Filter(s, p)|
    ensures Filter(s, p)[KeptBefore(s, p, i)] == s[i]
    ensures Filter(s, p)[KeptBefore(s, p, j)] == s[j]
  {
    assert s == s[..i] + [s[i]] + s[i + 1..j] + [s[j]] + s[j + 1..];
    assert s[..j] == s[..i] + [s[i]] + s[i + 1..j];
    FilterConcat(s[..i] + [s[i]] + s[i + 1..j] + [s[j]], s[j + 1..], p);
    FilterConcat(s[..i] + [s[i]] + s[i + 1..j], [s[j]], p);
    FilterConcat(s[..i] + [s[i]], s[i + 1..j], p);
    FilterConcat(s[..i], [s[i]], p);
    FilterSingle(s[i], p);
    FilterSingle(s[j], p);
  }

  /** Replacing one element by another that `p` classifies the same way
      leaves the number of kept elements unchanged. */
  lemma FilterUpdateCount<T(!new)>(s: seq<T>, i: nat, y: T, p: T -> bool)
    requires i < |s|
    requires p(y) == p(s[i])
    ensures |Filter(s[i := y], p)| == |Filter(s, p)|
  {
    assert s == s[..i] + [s[i]] + s[i + 1..];
    assert s[i := y] == s[..i] + [y] + s[i + 1..];
    FilterConcat(s[..i] + [s[i]], s[i + 1..], p);
    FilterConcat(s[..i], [s[i]], p);
    FilterConcat(s[..i] + [y], s[i + 1..], p);
    FilterConcat(s[..i], [y], p);
    assert [s[i]][..0] == [] && [y][..0] == [];
  }

  /** No two elements of `s` share a key. */
  predicate DistinctBy<T(!new), K(==)>(s: seq<T>, key: T -> K) {
    forall i, j :: 0 <= i < j < |s| ==> key(s[i]) != key(s[j])
  }

  /** A filter keeps keys distinct. */
  lemma {:induction false} FilterDistinct<T(!new), K>(s: seq<T>, p: T -> bool, key: T -> K)
    requires DistinctBy(s, key)
    ensures DistinctBy(Filter(s, p), key)
    decreases |s|
  {
    if s != [] {
      var s' := s[..|s| - 1];
      var x := s[|s| - 1];
      FilterDistinct(s', p, key);
      FilterMembers(s', p);
      var f := Filter(s', p);
      if p(x) {
        forall y | y in f ensures key(y) != key(x) {
          var k :| 0 <= k < |s'| && s'[k] == y;
          assert s[k] == y;
        }
        var r := f + [x];
        forall i, j | 0 <= i < j < |r| ensures key(r[i]) != key(r[j]) {
          if j == |r| - 1 { assert r[i] in f; }
        }
      }
    }
  }

  /** `s` is what comes before index `j`, the element there, and what
      comes after. */
  lemma SplitAround<T>(s: seq<T>, j: nat)
    requires j < |s|
    ensures s == s[..j] + ([s[j]] + s[j + 1..])
  {
    assert s[j..] == [s[j]] + s[j + 1..];
    assert s == s[..j] + s[j..];
  }

  /** A filter that rejects exactly the element at `j` deletes that element. */
  lemma FilterDropsOne<T(!new)>(s: seq<T>, p: T -> bool, j: nat)
    requires j < |s| && !p(s[j])
    requires forall k :: 0 <= k < |s| && k != j ==> p(s[k])
    ensures Filter(s, p) == s[..j] + s[j + 1..]
  {
    var pre, post := s[..j], s[j + 1..];
    SplitAround(s, j);
    FilterKeepsEvery(pre, p);
    FilterKeepsEvery(post, p);
    FilterSingle(s[j], p);
    FilterConcat([s[j]], post, p);
    FilterConcat(pre, [s[j]] + post, p);
    assert [] + post == post;
  }

  /** `s.find(p)`, as the index of the first element satisfying `p`. */
  function Find<T>(s: seq<T>, p: T -> bool): (r: Option<nat>)
    ensures r.Some? ==> r.value < |s| && p(s[r.value])
    ensures r.Some? ==> forall k :: 0 <= k < r.value ==> !p(s[k])
    ensures r.None? <==> forall k :: 0 <= k < |s| ==> !p(s[k])
  {
    if s == [] then None
    else if p(s[0]) then Some(0)
    else match Find(s[1..], p)
      case None => None
      case Some(k) => Some(k + 1)
  }

  /** Appending an element whose key is new keeps keys distinct. */
  lemma AppendDistinct<T(!new), K>(s: seq<T>, y: T, key: T -> K)
    requires DistinctBy(s, key)
    requires forall x :: x in s ==> key(x) != key(y)
    ensures DistinctBy(s + [y], key)
  {
    var r := s + [y];
    forall i, j | 0 <= i < j < |r| ensures key(r[i]) != key(r[j]) {
      if j == |r| - 1 { assert r[i] in s; }
      else { assert r[i] == s[i] && r[j] == s[j]; }
    }
  }

  /** `s.slice(-n)` for `n >= 1`: the last `n` elements, or all of `s` when
      it is shorter. */
  function SliceLast<T>(s: seq<T>, n: nat): (r: seq<T>)
    requires n >= 1
    ensures |r| == if |s| < n then |s| else n
    ensures r == s[|s| - |r|..]
  {
    if |s| <= n then s else s[|s| - n..]
  }
}
