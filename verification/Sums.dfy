/** Finite sums and the pointwise laws the column arithmetic needs. */
module Sums {
  function Sum(s: seq<int>): int {
    if s == [] then 0 else Sum(s[..|s| - 1]) + s[|s| - 1]
  }

  lemma {:induction false} SumSnoc(s: seq<int>, x: int)
    ensures Sum(s + [x]) == Sum(s) + x
  {
    assert (s + [x])[..|s|] == s;
  }

  lemma {:induction false} SumPrefix(s: seq<int>, k: nat)
    requires k < |s|
    ensures Sum(s[..k + 1]) == Sum(s[..k]) + s[k]
  {
    assert s[..k + 1] == s[..k] + [s[k]];
    SumSnoc(s[..k], s[k]);
  }

  lemma {:induction false} SumConcat(a: seq<int>, b: seq<int>)
    ensures Sum(a + b) == Sum(a) + Sum(b)
  {
    if b == [] {
      assert a + b == a;
    } else {
      var b' := b[..|b| - 1];
      SumConcat(a, b');
      assert a + b == (a + b') + [b[|b| - 1]];
      SumSnoc(a + b', b[|b| - 1]);
    }
  }

  lemma {:induction false} SumUpdate(s: seq<int>, i: nat, v: int)
    requires i < |s|
    ensures Sum(s[i := v]) == Sum(s) - s[i] + v
  {
    assert s[i := v] == s[..i] + ([v] + s[i + 1..]);
    assert s == s[..i] + ([s[i]] + s[i + 1..]);
    SumConcat(s[..i], [v] + s[i + 1..]);
    SumConcat(s[..i], [s[i]] + s[i + 1..]);
    SumConcat([v], s[i + 1..]);
    SumConcat([s[i]], s[i + 1..]);
    SumSnoc([], v);
    SumSnoc([], s[i]);
    assert [] + [v] == [v] && [] + [s[i]] == [s[i]];
  }

  /** Sum(c) is the same linear combination of Sum(a) and Sum(b) that c is of a and b. */
  lemma {:induction false} SumLinear(a: seq<int>, b: seq<int>, c: seq<int>, p: int, q: int)
    requires |a| == |b| == |c|
    requires forall i :: 0 <= i < |c| ==> c[i] == p * a[i] + q * b[i]
    ensures Sum(c) == p * Sum(a) + q * Sum(b)
  {
    if c != [] {
      var n := |c| - 1;
      SumLinear(a[..n], b[..n], c[..n], p, q);
      assert c[n] == p * a[n] + q * b[n];
      calc {
        Sum(c);
        p * Sum(a[..n]) + q * Sum(b[..n]) + (p * a[n] + q * b[n]);
        p * (Sum(a[..n]) + a[n]) + q * (Sum(b[..n]) + b[n]);
        p * Sum(a) + q * Sum(b);
      }
    }
  }

  /** A pointwise bound sums up, and strictly if it is strict anywhere. */
  lemma {:induction false} SumLe(a: seq<int>, b: seq<int>)
    requires |a| == |b|
    requires forall i :: 0 <= i < |a| ==> a[i] <= b[i]
    ensures Sum(a) <= Sum(b)
    ensures (exists i :: 0 <= i < |a| && a[i] < b[i]) ==> Sum(a) < Sum(b)
  {
    if a != [] {
      var n := |a| - 1;
      SumLe(a[..n], b[..n]);
      if i :| 0 <= i < |a| && a[i] < b[i] {
        if i < n {
          assert a[..n][i] < b[..n][i];
        }
      }
    }
  }

  /** Vectors with equal sums that differ at all differ in both directions. */
  lemma {:induction false} EqualSumsDifferBothWays(a: seq<int>, b: seq<int>) returns (i: nat, j: nat)
    requires |a| == |b| && Sum(a) == Sum(b) && a != b
    ensures i < |a| && j < |a| && a[i] > b[i] && a[j] < b[j]
  {
    var k :| 0 <= k < |a| && a[k] != b[k];
    if forall i :: 0 <= i < |a| ==> a[i] <= b[i] {
      SumLe(a, b);
      assert false;
    }
    if forall i :: 0 <= i < |a| ==> a[i] >= b[i] {
      SumLe(b, a);
      assert false;
    }
    i :| 0 <= i < |a| && a[i] > b[i];
    j :| 0 <= j < |a| && a[j] < b[j];
  }

  lemma {:induction false} ElementAtMostSum(s: seq<int>, i: nat)
    requires i < |s|
    requires forall k :: 0 <= k < |s| ==> s[k] >= 0
    ensures 0 <= s[i] <= Sum(s)
  {
    var only := seq(|s|, (k: int) => 0)[i := s[i]];
    SumUpdate(seq(|s|, (k: int) => 0), i, s[i]);
    SumLinear(s, s, seq(|s|, (k: int) => 0), 0, 0);
    SumLe(only, s);
  }

  /** How many entries are positive. */
  function Positives(s: seq<int>): nat {
    if s == [] then 0 else Positives(s[..|s| - 1]) + (if s[|s| - 1] > 0 then 1 else 0)
  }

  lemma {:induction false} PositivesZero(s: seq<int>)
    ensures Positives(s) == 0 <==> forall i :: 0 <= i < |s| ==> s[i] <= 0
  {
    if s != [] {
      var n := |s| - 1;
      PositivesZero(s[..n]);
      assert forall i :: 0 <= i < n ==> s[..n][i] == s[i];
    }
  }

  /** Entries below c add up to less than c for each positive one. */
  lemma {:induction false} SumBelow(s: seq<nat>, c: nat)
    requires forall i :: 0 <= i < |s| ==> s[i] < c
    ensures 0 <= Sum(s) <= Positives(s) * c - Positives(s)
    ensures Positives(s) <= |s|
  {
    if s != [] {
      var n := |s| - 1;
      SumBelow(s[..n], c);
      assert (Positives(s[..n]) + 1) * c == Positives(s[..n]) * c + c;
    }
  }

  /** A linear lower bound on what moving from xs to ys costs, when the moves cancel out. */
  lemma {:induction false} LagrangeBound(xs: seq<int>, ys: seq<int>, ex: seq<int>, ey: seq<int>, slope: int)
    requires |xs| == |ys| == |ex| == |ey| && Sum(xs) == Sum(ys)
    requires forall i :: 0 <= i < |ex| ==> ey[i] >= ex[i] + slope * (ys[i] - xs[i])
    ensures Sum(ex) <= Sum(ey)
  {
    var moved: seq<int> := seq(|ex|, i requires 0 <= i < |ex| => ys[i] - xs[i]);
    var bound: seq<int> := seq(|ex|, i requires 0 <= i < |ex| => ex[i] + slope * moved[i]);
    SumLinear(ys, xs, moved, 1, -1);
    SumLinear(ex, moved, bound, 1, slope);
    forall i | 0 <= i < |ex| ensures bound[i] <= ey[i] {
      assert moved[i] == ys[i] - xs[i];
    }
    SumLe(bound, ey);
  }

  /** Positive entries of b, when b is positive only where a is, against a's and against b's sum. */
  lemma {:induction false} CountShown(a: seq<int>, b: seq<nat>)
    requires |a| == |b|
    requires forall i :: 0 <= i < |a| && b[i] > 0 ==> a[i] > 0
    ensures Positives(b) <= Positives(a) && Positives(b) <= Sum(b)
    ensures Positives(b) == Positives(a) <==> forall i :: 0 <= i < |a| && a[i] > 0 ==> b[i] > 0
    ensures Positives(b) == Sum(b) <==> forall i :: 0 <= i < |b| ==> b[i] <= 1
  {
    if a != [] {
      var n := |a| - 1;
      CountShown(a[..n], b[..n]);
      assert forall i :: 0 <= i < n ==> a[..n][i] == a[i] && b[..n][i] == b[i];
    }
  }

  lemma {:induction false} SumPositive(s: seq<nat>)
    ensures Sum(s) >= 0
    ensures Sum(s) > 0 <==> exists k :: 0 <= k < |s| && s[k] > 0
  {
    if s != [] {
      var n := |s| - 1;
      SumPositive(s[..n]);
      if k :| 0 <= k < |s| && s[k] > 0 {
        assert k < n ==> s[..n][k] > 0;
      }
    }
  }
}
