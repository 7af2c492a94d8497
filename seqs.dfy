/** Generic sequence operations the models share: distinctness, the first
    element satisfying a test (Array.prototype.find / findIndex), and the
    removal of every element with a given key (Array.prototype.filter). */
module Seqs {
  import opened Options

  /** No element occurs twice. */
  predicate Distinct<T(==)>(s: seq<T>) {
    forall i, j :: 0 <= i < j < |s| ==> s[i] != s[j]
  }

  /** A list of distinct indices below n has at most n entries. */
  lemma {:induction false} DistinctBounded(s: seq<int>, n: nat)
    requires Distinct(s)
    requires forall i :: 0 <= i < |s| ==> 0 <= s[i] < n
    ensures |s| <= n
    decreases n
  {
    if |s| > 0 {
      assert 0 <= s[0] < n;
      if k :| 0 <= k < |s| && s[k] == n - 1 {
        var s' := s[..k] + s[k + 1..];
        assert forall i :: 0 <= i < |s'| ==> s'[i] == if i < k then s[i] else s[i + 1];
        DistinctBounded(s', n - 1);
      } else {
        DistinctBounded(s, n - 1);
      }
    }
  }

  /** Index of the first element of xs that satisfies p, if any. */
  function FindFirst<T>(xs: seq<T>, p: T -> bool): (r: Option<nat>)
    ensures r.Some? ==> r.value < |xs| && p(xs[r.value]) && forall j :: 0 <= j < r.value ==> !p(xs[j])
    ensures r.None? <==> forall j :: 0 <= j < |xs| ==> !p(xs[j])
  {
    if |xs| == 0 then None
    else if p(xs[0]) then Some(0)
    else match FindFirst(xs[1..], p)
      case Some(i) => assert xs[1..][i] == xs[i + 1]; Some(i + 1)
      case None => assert forall j :: 1 <= j < |xs| ==> xs[j] == xs[1..][j - 1]; None
  }

  /** The first element satisfying p is the one find reports. */
  lemma FindFirstIs<T>(xs: seq<T>, p: T -> bool, i: nat)
    requires i < |xs| && p(xs[i])
    requires forall j :: 0 <= j < i ==> !p(xs[j])
    ensures FindFirst(xs, p) == Some(i)
  {
  }

  /** The elements of xs whose key differs from id, in their original order. */
  function Without<T(!new)>(xs: seq<T>, key: T -> string, id: string): (r: seq<T>)
    ensures |r| <= |xs|
    ensures forall x :: x in r <==> x in xs && key(x) != id
  {
    if |xs| == 0 then []
    else
      var rest := Without(xs[1..], key, id);
      assert forall x :: x in xs <==> x == xs[0] || x in xs[1..];
      if key(xs[0]) == id then rest else [xs[0]] + rest
  }

  /** Filtering distributes over concatenation, so the kept elements stay in
      the order they had. */
  lemma {:induction false} WithoutAppend<T(!new)>(a: seq<T>, b: seq<T>, key: T -> string, id: string)
    ensures Without(a + b, key, id) == Without(a, key, id) + Without(b, key, id)
  {
    if |a| == 0 {
      assert a + b == b;
    } else {
      var head := if key(a[0]) == id then [] else [a[0]];
      assert (a + b)[0] == a[0] && (a + b)[1..] == a[1..] + b;
      WithoutAppend(a[1..], b, key, id);
      calc {
        Without(a + b, key, id);
        head + Without(a[1..] + b, key, id);
        head + (Without(a[1..], key, id) + Without(b, key, id));
        (head + Without(a[1..], key, id)) + Without(b, key, id);
      }
    }
  }

  /** Every element keeps all of its occurrences unless its key is id, in
      which case none is left. */
  lemma {:induction false} WithoutCount<T(!new)>(xs: seq<T>, key: T -> string, id: string, x: T)
    ensures multiset(Without(xs, key, id))[x] == if key(x) == id then 0 else multiset(xs)[x]
  {
    if |xs| > 0 {
      WithoutCount(xs[1..], key, id, x);
      assert xs == [xs[0]] + xs[1..];
    }
  }

  /** Nothing is removed when no element has the key id. */
  lemma {:induction false} WithoutNothing<T(!new)>(xs: seq<T>, key: T -> string, id: string)
    requires forall j :: 0 <= j < |xs| ==> key(xs[j]) != id
    ensures Without(xs, key, id) == xs
  {
    if |xs| > 0 {
      WithoutNothing(xs[1..], key, id);
      assert [xs[0]] + xs[1..] == xs;
    }
  }
}
