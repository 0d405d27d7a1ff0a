/**
 Sums of a weight over the table of threads of a state machine. A weight of 0 or 1 counts
 the threads at some program point; other weights give termination measures.
 */
module Sums {

  function Sum<T>(ts: seq<T>, w: T -> nat): nat {
    if ts == [] then 0 else w(ts[0]) + Sum(ts[1..], w)
  }

  lemma {:induction false} SumUpdate<T>(ts: seq<T>, i: nat, v: T, w: T -> nat)
    requires i < |ts|
    ensures Sum(ts[i := v], w) == Sum(ts, w) - w(ts[i]) + w(v)
    ensures w(ts[i]) <= Sum(ts, w)
  {
    var us := ts[i := v];
    if i == 0 {
      assert us[1..] == ts[1..];
    } else {
      assert us[1..] == ts[1..][i - 1 := v];
      SumUpdate(ts[1..], i - 1, v, w);
    }
  }

  /** Weights that shrink pointwise have a smaller sum. */
  lemma {:induction false} SumMonotone<T>(ts: seq<T>, us: seq<T>, w: T -> nat)
    requires |ts| == |us|
    requires forall i :: 0 <= i < |ts| ==> w(us[i]) <= w(ts[i])
    ensures Sum(us, w) <= Sum(ts, w)
  {
    if ts == [] {
    } else {
      SumMonotone(ts[1..], us[1..], w);
    }
  }

  lemma {:induction false} SumBound<T>(ts: seq<T>, w: T -> nat, b: nat)
    requires forall i :: 0 <= i < |ts| ==> w(ts[i]) <= b
    ensures Sum(ts, w) <= b * |ts|
  {
    if ts == [] {
    } else {
      SumBound(ts[1..], w, b);
      assert b * |ts| == b + b * (|ts| - 1);
    }
  }

  /** A sum is zero exactly when every weight is. */
  lemma {:induction false} SumZero<T>(ts: seq<T>, w: T -> nat)
    ensures Sum(ts, w) == 0 <==> forall i :: 0 <= i < |ts| ==> w(ts[i]) == 0
  {
    if ts == [] {
    } else {
      SumZero(ts[1..], w);
      assert forall i :: 0 < i < |ts| ==> ts[i] == ts[1..][i - 1];
      assert forall i :: 0 <= i < |ts| - 1 ==> ts[1..][i] == ts[i + 1];
    }
  }

  /** A triple (work, live, runnable) with live, runnable <= n, ordered lexicographically, as one number. */
  ghost function Rank(n: nat, work: nat, live: nat, runnable: nat): nat {
    (work * (n + 1) + live) * (n + 1) + runnable
  }

  lemma TimesMonotone(a: nat, b: nat, k: nat)
    requires a <= b
    ensures a * k <= b * k
  {
    assert b * k == a * k + (b - a) * k;
  }

  lemma DigitDrops(n: nat, a: nat, r: nat, a': nat, r': nat)
    requires a' < a && r' <= n
    ensures a' * (n + 1) + r' < a * (n + 1) + r
  {
    TimesMonotone(a' + 1, a, n + 1);
    assert (a' + 1) * (n + 1) == a' * (n + 1) + (n + 1);
  }

  lemma RankDrops(n: nat, w: nat, l: nat, r: nat, w': nat, l': nat, r': nat)
    requires l' <= n && r' <= n
    requires w' < w || (w' == w && (l' < l || (l' == l && r' < r)))
    ensures Rank(n, w', l', r') < Rank(n, w, l, r)
  {
    var a, a' := w * (n + 1) + l, w' * (n + 1) + l';
    if w' < w {
      DigitDrops(n, w, l, w', l');
    }
    if a' < a {
      DigitDrops(n, a, r, a', r');
    }
  }

  lemma RankGrows(n: nat, w: nat, l: nat, r: nat, l': nat, r': nat)
    requires l <= l' && r <= r'
    ensures Rank(n, w, l, r) <= Rank(n, w, l', r')
  {
    TimesMonotone(w * (n + 1) + l, w * (n + 1) + l', n + 1);
  }
}
