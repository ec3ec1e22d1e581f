/** Counting and locating the elements of a sequence that satisfy a predicate:
    the shape shared by every counting loop of the game manager. */
module Counting {

  /** Number of elements of `s` satisfying `p`, counted from left to right. */
  function Count<T>(s: seq<T>, p: T -> bool): (n: nat)
    ensures n <= |s|
  {
    if |s| == 0 then 0 else Count(s[..|s| - 1], p) + (if p(s[|s| - 1]) then 1 else 0)
  }

  /** The indices of the elements of `s` satisfying `p`, in increasing order. */
  function Positions<T>(s: seq<T>, p: T -> bool): (idx: seq<nat>)
    ensures |idx| == Count(s, p)
    ensures forall k :: 0 <= k < |idx| ==> idx[k] < |s| && p(s[idx[k]])
    ensures forall k, l :: 0 <= k < l < |idx| ==> idx[k] < idx[l]
    ensures forall i :: 0 <= i < |s| && p(s[i]) ==> i in idx
  {
    if |s| == 0 then []
    else
      var n := |s| - 1;
      assert forall i :: 0 <= i < n ==> s[..n][i] == s[i];
      Positions(s[..n], p) + (if p(s[n]) then [n] else [])
  }

  /** The set of indices of the elements of `s` satisfying `p`. */
  function IndexSet<T>(s: seq<T>, p: T -> bool): set<int> {
    set i | 0 <= i < |s| && p(s[i])
  }

  /** Reference definition: the count is the size of the set of satisfying indices. */
  lemma {:induction false} CountIsCardinality<T>(s: seq<T>, p: T -> bool)
    ensures Count(s, p) == |IndexSet(s, p)|
  {
    if |s| > 0 {
      var n := |s| - 1;
      CountIsCardinality(s[..n], p);
      var before := set i | 0 <= i < n && p(s[..n][i]);
      var all := set i | 0 <= i < |s| && p(s[i]);
      assert before == set i | 0 <= i < n && p(s[i]);
      if p(s[n]) {
        assert all == before + {n};
      } else {
        assert all == before;
      }
    }
  }

  lemma {:induction false} CountZeroIffNone<T>(s: seq<T>, p: T -> bool)
    ensures Count(s, p) == 0 <==> forall i :: 0 <= i < |s| ==> !p(s[i])
  {
    if |s| > 0 {
      var n := |s| - 1;
      CountZeroIffNone(s[..n], p);
      assert forall i :: 0 <= i < n ==> s[..n][i] == s[i];
    }
  }

  /** At most one satisfying element exactly when no two distinct indices both satisfy `p`. */
  lemma {:induction false} CountAtMostOneIffUnique<T>(s: seq<T>, p: T -> bool)
    ensures Count(s, p) <= 1 <==>
            forall i, j :: 0 <= i < |s| && 0 <= j < |s| && p(s[i]) && p(s[j]) ==> i == j
  {
    if |s| > 0 {
      var n := |s| - 1;
      CountAtMostOneIffUnique(s[..n], p);
      CountZeroIffNone(s[..n], p);
      assert forall i :: 0 <= i < n ==> s[..n][i] == s[i];
    }
  }

  /** Replacing one element changes the count by what the old and the new element contribute. */
  lemma {:induction false} CountUpdate<T>(s: seq<T>, k: nat, x: T, p: T -> bool)
    requires k < |s|
    ensures Count(s[k := x], p) + (if p(s[k]) then 1 else 0) == Count(s, p) + (if p(x) then 1 else 0)
  {
    var n := |s| - 1;
    if k == n {
      assert s[k := x][..n] == s[..n];
    } else {
      assert s[k := x][..n] == s[..n][k := x];
      CountUpdate(s[..n], k, x, p);
    }
  }

  /** When `p` implies `q` pointwise, `p` is counted no more often than `q`, and equally often
      exactly when the two agree on every element. */
  lemma {:induction false} CountImplied<T>(s: seq<T>, p: T -> bool, q: T -> bool)
    requires forall i :: 0 <= i < |s| && p(s[i]) ==> q(s[i])
    ensures Count(s, p) <= Count(s, q)
    ensures Count(s, p) == Count(s, q) <==> forall i :: 0 <= i < |s| && q(s[i]) ==> p(s[i])
  {
    if |s| > 0 {
      var n := |s| - 1;
      assert forall i :: 0 <= i < n ==> s[..n][i] == s[i];
      CountImplied(s[..n], p, q);
    }
  }

  /** Counting a prefix one element longer adds that element's contribution. */
  lemma CountSnoc<T>(s: seq<T>, i: nat, p: T -> bool)
    requires i < |s|
    ensures Count(s[..i + 1], p) == Count(s[..i], p) + (if p(s[i]) then 1 else 0)
  {
    assert s[..i + 1][..i] == s[..i];
  }

  /** Every element satisfies `p` exactly when all of them are counted. */
  lemma {:induction false} CountFullIffAll<T>(s: seq<T>, p: T -> bool)
    ensures Count(s, p) == |s| <==> forall i :: 0 <= i < |s| ==> p(s[i])
  {
    if |s| > 0 {
      var n := |s| - 1;
      CountFullIffAll(s[..n], p);
      assert forall i :: 0 <= i < n ==> s[..n][i] == s[i];
    }
  }

  /** A longer prefix counts at least as many elements as a shorter one. */
  lemma {:induction false} CountPrefixMono<T>(s: seq<T>, a: nat, b: nat, p: T -> bool)
    requires a <= b <= |s|
    ensures Count(s[..a], p) <= Count(s[..b], p)
    decreases b - a
  {
    if a < b {
      CountSnoc(s, a, p);
      CountPrefixMono(s, a + 1, b, p);
    }
  }
}
