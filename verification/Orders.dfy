/**
 Orders in which numbered items leave a queue. `PassedBy(s, i)` holds the smaller items that
 had not left when s[i] did; bounding it bounds how early an item can leave and how long a
 decreasing subsequence can be.
 */
module Orders {

  ghost predicate Distinct<T(!new)>(s: seq<T>) {
    forall i, j :: 0 <= i < j < |s| ==> s[i] != s[j]
  }

  ghost predicate StrictlyIncreasing(s: seq<nat>) {
    forall i, j :: 0 <= i < j < |s| ==> s[i] < s[j]
  }

  /** Every number below n occurs in s exactly once, and nothing else does. */
  ghost predicate IsPermutation(s: seq<nat>, n: nat) {
    && |s| == n
    && Distinct(s)
    && forall i :: 0 <= i < |s| ==> s[i] < n
  }

  ghost function Below(n: nat): (r: set<nat>)
    ensures |r| == n
    ensures forall v: nat :: v in r <==> v < n
  {
    if n == 0 then {} else Below(n - 1) + {n - 1}
  }

  ghost function Elements<T>(s: seq<T>): set<T> {
    set x | x in s
  }

  lemma {:induction false} ElementsSize<T(!new)>(s: seq<T>)
    ensures |Elements(s)| <= |s|
    ensures Distinct(s) ==> |Elements(s)| == |s|
  {
    if s == [] {
    } else {
      var t := s[1..];
      ElementsSize(t);
      assert Elements(s) == {s[0]} + Elements(t);
      if Distinct(s) {
        assert Distinct(t);
        assert s[0] !in t;
      }
    }
  }

  lemma SubsetSize<T>(a: set<T>, b: set<T>)
    requires a <= b
    ensures |a| <= |b|
    ensures |a| == |b| ==> a == b
  {
    assert b == a + (b - a);
    assert |b| == |a| + |b - a|;
  }

  /** A permutation of the numbers below n misses none of them. */
  lemma PermutationComplete(s: seq<nat>, n: nat)
    requires IsPermutation(s, n)
    ensures Elements(s) == Below(n)
  {
    ElementsSize(s);
    SubsetSize(Elements(s), Below(n));
  }

  /** What is not among the first items of a permutation comes later. */
  lemma ComesLater(s: seq<nat>, n: nat, k: nat, v: nat) returns (i: nat)
    requires IsPermutation(s, n) && k <= n && v < n && v !in s[..k]
    ensures k <= i < n && s[i] == v
  {
    PermutationComplete(s, n);
    assert v in Elements(s) && s == s[..k] + s[k..];
    var j :| 0 <= j < n - k && s[k..][j] == v;
    i := k + j;
  }

  /** Distinct numbers below n that leave none out are a permutation. */
  lemma CompleteIsPermutation(s: seq<nat>, n: nat)
    requires Distinct(s) && forall v: nat :: v in s <==> v < n
    ensures IsPermutation(s, n)
  {
    ElementsSize(s);
    assert Elements(s) == Below(n);
    assert forall i :: 0 <= i < |s| ==> s[i] in s;
  }

  ghost function PassedBy(s: seq<nat>, i: nat): set<nat>
    requires i < |s|
  {
    set v: nat | v < s[i] && v !in s[..i]
  }

  ghost predicate OvertakesAtMost(s: seq<nat>, d: int) {
    forall i :: 0 <= i < |s| ==> |PassedBy(s, i)| <= d
  }

  /** An item passes at least as many smaller items as the positions it is early by. */
  lemma EarlyMeansPassing(s: seq<nat>, i: nat)
    requires i < |s|
    ensures s[i] - i <= |PassedBy(s, i)|
  {
    ElementsSize(s[..i]);
    var gone := Below(s[i]) * Elements(s[..i]);
    SubsetSize(gone, Elements(s[..i]));
    assert Below(s[i]) == gone + PassedBy(s, i);
  }

  ghost predicate DecreasingAt(s: seq<nat>, js: seq<nat>) {
    && (forall k :: 0 <= k < |js| ==> js[k] < |s|)
    && (forall k, l :: 0 <= k < l < |js| ==> js[k] < js[l] && s[js[k]] > s[js[l]])
  }

  /** A decreasing subsequence is at most one longer than what its first item passes. */
  lemma DecreasingIsShort(s: seq<nat>, js: seq<nat>, d: int)
    requires Distinct(s) && OvertakesAtMost(s, d) && d >= 0
    requires DecreasingAt(s, js)
    ensures |js| <= d + 1
  {
    if js != [] {
      var vals := seq(|js| - 1, k requires 0 <= k < |js| - 1 => s[js[k + 1]]);
      forall k, l | 0 <= k < l < |vals| ensures vals[k] != vals[l] {
        assert js[k + 1] < js[l + 1];
      }
      ElementsSize(vals);
      forall v | v in Elements(vals) ensures v in PassedBy(s, js[0]) {
        var k :| 0 <= k < |vals| && vals[k] == v;
        assert js[0] < js[k + 1];
      }
      SubsetSize(Elements(vals), PassedBy(s, js[0]));
    }
  }

  /** No a, b, c in this order with b < c < a. */
  ghost predicate StackOrder(s: seq<nat>) {
    forall i, j, k :: 0 <= i < j < k < |s| ==> !(s[j] < s[k] < s[i])
  }

  /** Appending an item keeps the earlier items' passed sets and adds one of its own. */
  lemma PassedByAppend(s: seq<nat>, x: nat)
    ensures forall i :: 0 <= i < |s| ==> PassedBy(s + [x], i) == PassedBy(s, i)
    ensures PassedBy(s + [x], |s|) == set v: nat | v < x && v !in s
  {
    forall i | 0 <= i < |s| ensures PassedBy(s + [x], i) == PassedBy(s, i) {
      assert (s + [x])[..i] == s[..i];
    }
    assert (s + [x])[..|s|] == s;
  }
}
