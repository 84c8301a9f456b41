/**
 * The BFS frontier buffers: ordered sequences of vertex ids, sorted in
 * ascending order after each level (`sort_unstable`).
 */
module Frontier {

  ghost predicate Sorted(s: seq<nat>)
  {
    forall i, j :: 0 <= i < j < |s| ==> s[i] <= s[j]
  }

  /** No vertex occurs twice. */
  ghost predicate Distinct(s: seq<nat>)
  {
    forall x :: multiset(s)[x] <= 1
  }

  /** The first index of a sorted sequence whose entry is not below `x`. */
  function Position(s: seq<nat>, x: nat): (k: nat)
    requires Sorted(s)
    ensures k <= |s|
    ensures forall i :: 0 <= i < k ==> s[i] < x
    ensures forall i :: k <= i < |s| ==> x <= s[i]
  {
    if s == [] || x <= s[0] then 0 else 1 + Position(s[1..], x)
  }

  /** Inserts `x` into a sorted sequence, keeping it sorted. */
  function Insert(s: seq<nat>, x: nat): (r: seq<nat>)
    requires Sorted(s)
    ensures Sorted(r)
    ensures multiset(r) == multiset(s) + multiset{x}
  {
    var k := Position(s, x);
    InsertAt(s, x, k);
    s[..k] + [x] + s[k..]
  }

  lemma InsertAt(s: seq<nat>, x: nat, k: nat)
    requires Sorted(s) && k <= |s|
    requires forall i :: 0 <= i < k ==> s[i] < x
    requires forall i :: k <= i < |s| ==> x <= s[i]
    ensures Sorted(s[..k] + [x] + s[k..])
    ensures multiset(s[..k] + [x] + s[k..]) == multiset(s) + multiset{x}
  {
    var r := s[..k] + [x] + s[k..];
    assert s == s[..k] + s[k..];
    forall i, j | 0 <= i < j < |r|
      ensures r[i] <= r[j]
    {
      if j < k {
        assert r[i] == s[i] && r[j] == s[j];
      } else if j == k {
        assert r[i] == s[i];
      } else if i < k {
        assert r[i] == s[i] && r[j] == s[j - 1];
      } else if i == k {
        assert r[j] == s[j - 1];
      } else {
        assert r[i] == s[i - 1] && r[j] == s[j - 1];
      }
    }
  }

  /**
   * `slice::sort_unstable` on the frontier: the result is the same
   * vertices, each as often as before, in ascending order.
   */
  method SortAscending(s: seq<nat>) returns (r: seq<nat>)
    ensures Sorted(r)
    ensures multiset(r) == multiset(s)
    ensures |r| == |s|
  {
    r := [];
    for i := 0 to |s|
      invariant Sorted(r)
      invariant multiset(r) == multiset(s[..i])
    {
      assert s[..i + 1] == s[..i] + [s[i]];
      r := Insert(r, s[i]);
    }
    assert s[..|s|] == s;
    assert |r| == |multiset(r)|;
  }

  /** Appending a vertex not yet present keeps the entries distinct. */
  lemma DistinctAppend(s: seq<nat>, x: nat)
    requires Distinct(s) && x !in s
    ensures Distinct(s + [x])
  {
    assert multiset(s + [x]) == multiset(s) + multiset{x};
  }

  ghost function Elems(s: seq<nat>): set<nat>
  {
    set x | x in s
  }

  /** A sequence of distinct ids below `n` has at most `n` entries. */
  lemma {:induction false} DistinctBelow(s: seq<nat>, n: nat)
    requires Distinct(s)
    requires forall x :: x in s ==> x < n
    ensures |s| <= n
  {
    DistinctCard(s);
    RangeCard(Elems(s), n);
  }

  lemma {:induction false} DistinctCard(s: seq<nat>)
    requires Distinct(s)
    ensures |Elems(s)| == |s|
  {
    if s != [] {
      var init, last := s[..|s| - 1], s[|s| - 1];
      assert s == init + [last];
      assert multiset(s) == multiset(init) + multiset{last};
      assert Distinct(init) by {
        forall x
          ensures multiset(init)[x] <= 1
        {
          assert multiset(init)[x] <= multiset(s)[x];
        }
      }
      assert last !in init by {
        assert multiset(s)[last] == multiset(init)[last] + 1;
      }
      DistinctCard(init);
      assert Elems(s) == Elems(init) + {last};
    }
  }

  lemma {:induction false} RangeCard(xs: set<nat>, n: nat)
    requires forall x :: x in xs ==> x < n
    ensures |xs| <= n
  {
    if n > 0 {
      var rest := xs - {n - 1};
      RangeCard(rest, n - 1);
    }
  }
}
