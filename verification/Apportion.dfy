/** The largest-remainder stage of `allocate_widths` (core/src/bar.rs): a declarative
    specification, and what it implies. */
module Apportion {
  import opened Machine
  import opened Sums

  /** Exact shares as fractions over `sum`: share i is exact[i] / sum, that is floors[i]
      whole columns and rems[i] / sum of another. */
  datatype Shares = Shares(sum: nat, exact: seq<nat>, floors: seq<nat>, rems: seq<nat>) {
    /** The shares of `total` columns: together they are worth exactly `total`. */
    ghost predicate Valid(total: nat) {
      && sum > 0
      && |exact| == |floors| == |rems|
      && Sum(exact) == sum * total
      && forall i :: 0 <= i < |exact| ==> exact[i] == sum * floors[i] + rems[i] && rems[i] < sum
    }
  }

  /** Quotient and remainder. */
  function DivMod(e: nat, s: nat): (qr: (nat, nat))
    requires s > 0
    ensures e == s * qr.0 + qr.1 && qr.1 < s
  {
    (e / s, e % s)
  }

  function Numerators(ws: seq<u64>, total: usize): (r: seq<nat>)
    ensures |r| == |ws|
    ensures forall i :: 0 <= i < |ws| ==> r[i] == ws[i] * total
  {
    seq(|ws|, i requires 0 <= i < |ws| => ws[i] * total)
  }

  function SharesOf(exact: seq<nat>, sum: nat): (sh: Shares)
    requires sum > 0
    ensures sh.sum == sum && sh.exact == exact && |sh.floors| == |sh.rems| == |exact|
    ensures forall i :: 0 <= i < |exact| ==> (sh.floors[i], sh.rems[i]) == DivMod(exact[i], sum)
  {
    Shares(sum, exact,
           seq(|exact|, i requires 0 <= i < |exact| => DivMod(exact[i], sum).0),
           seq(|exact|, i requires 0 <= i < |exact| => DivMod(exact[i], sum).1))
  }

  /** The shares of `total` columns that are proportional to the weights. */
  function HareShares(ws: seq<u64>, total: usize): Shares
    requires Sum(ws) > 0
  {
    SharesOf(Numerators(ws, total), Sum(ws))
  }

  lemma {:induction false} HareSharesValid(ws: seq<u64>, total: usize)
    requires Sum(ws) > 0
    ensures HareShares(ws, total).Valid(total)
    ensures |HareShares(ws, total).exact| == |ws|
  {
    var sh := HareShares(ws, total);
    SumLinear(ws, ws, sh.exact, total, 0);
    forall i | 0 <= i < |ws| ensures sh.exact[i] == sh.sum * sh.floors[i] + sh.rems[i] && sh.rems[i] < sh.sum {
      var qr := DivMod(sh.exact[i], sh.sum);
    }
  }

  /** i is served before j: a larger remainder, or the same one earlier in the list. */
  predicate Precedes(sh: Shares, i: nat, j: nat)
    requires i < |sh.rems| && j < |sh.rems|
  {
    sh.rems[i] > sh.rems[j] || (sh.rems[i] == sh.rems[j] && i < j)
  }

  /** xs spends exactly `total`, gives each entry its floor or one more, and the extra
      columns sit on entries that are served before every entry without one. */
  ghost predicate Apportions(sh: Shares, total: nat, xs: seq<nat>) {
    && |xs| == |sh.floors| == |sh.rems|
    && Sum(xs) == total
    && (forall i :: 0 <= i < |xs| ==> sh.floors[i] <= xs[i] <= sh.floors[i] + 1)
    && (forall i, j :: 0 <= i < |xs| && 0 <= j < |xs| && xs[i] == sh.floors[i] + 1 && xs[j] == sh.floors[j]
                       ==> Precedes(sh, i, j))
  }

  /** The specification of the first stage. */
  ghost predicate IsLargestRemainder(ws: seq<u64>, total: usize, xs: seq<nat>)
    requires Sum(ws) > 0
  {
    Apportions(HareShares(ws, total), total, xs)
  }

  /** It leaves no choice. */
  lemma {:induction false} LargestRemainderUnique(ws: seq<u64>, total: usize, xs: seq<nat>, ys: seq<nat>)
    requires Sum(ws) > 0
    requires IsLargestRemainder(ws, total, xs) && IsLargestRemainder(ws, total, ys)
    ensures xs == ys
  {
    if xs != ys {
      var i, j := EqualSumsDifferBothWays(xs, ys);
      assert false;
    }
  }

  // ----- conservation -----

  lemma {:induction false} ConstantSum(n: nat, c: int)
    ensures Sum(seq(n, i => c)) == n * c
  {
    if n > 0 {
      ConstantSum(n - 1, c);
      assert seq(n, i => c)[..n - 1] == seq(n - 1, i => c);
      assert n * c == (n - 1) * c + c;
    }
  }

  /** The columns the floors leave over, counted in units of 1 / sum, are the remainders. */
  lemma {:induction false} RemaindersPayLeftover(sh: Shares, total: nat)
    requires sh.Valid(total)
    ensures sh.sum * (total - Sum(sh.floors)) == Sum(sh.rems)
  {
    SumLinear(sh.floors, sh.rems, sh.exact, sh.sum, 1);
    assert sh.sum * (total - Sum(sh.floors)) == sh.sum * total - sh.sum * Sum(sh.floors);
  }

  lemma {:induction false} MulStep(s: nat, a: int, b: int)
    requires a < b
    ensures s * a + s <= s * b
  {
    assert s * (b - a - 1) >= 0;
    assert s * (b - a - 1) == s * b - s * a - s;
  }

  lemma {:induction false} QuotientBound(s: nat, left: int, n: nat)
    requires 0 <= s * left < n * s
    ensures 0 <= left < n
  {
    if left < 0 {
      MulStep(s, left, 0);
      assert false;
    }
    if left >= n {
      MulStep(s, n, left + 1);
      MulStep(s, left, left + 1);
      OneMore(s, left);
      assert false;
    }
  }

  /** Unless nothing is left over, there are fewer leftover columns than remainders above zero,
      and never a negative number: the subtraction cannot underflow and one pass over the
      entries hands all of them out. */
  lemma {:induction false} LeftoverIsSmall(sh: Shares, total: nat)
    requires sh.Valid(total)
    ensures 0 <= total - Sum(sh.floors)
    ensures total == Sum(sh.floors) || total - Sum(sh.floors) < Positives(sh.rems)
    ensures |sh.exact| > 0 ==> total - Sum(sh.floors) < |sh.exact|
  {
    var left, k := total - Sum(sh.floors), Positives(sh.rems);
    SumBelow(sh.rems, sh.sum);
    RemaindersPayLeftover(sh, total);
    QuotientBound(sh.sum, left, if k == 0 then 1 else k);
  }

  lemma {:induction false} OneMore(s: nat, f: int)
    ensures s * (f + 1) == s * f + s
  {
  }

  /** Where an extra column went, the remainder is positive. */
  lemma {:induction false} WinnersHaveRemainder(sh: Shares, total: nat, xs: seq<nat>, i: nat)
    requires sh.Valid(total) && Apportions(sh, total, xs) && i < |xs|
    ensures xs[i] == sh.floors[i] + 1 ==> sh.rems[i] > 0
  {
    if xs[i] == sh.floors[i] + 1 && sh.rems[i] == 0 {
      var given := seq(|xs|, k requires 0 <= k < |xs| => sh.sum * xs[k]);
      SumLinear(xs, xs, given, sh.sum, 0);
      forall k | 0 <= k < |xs| ensures sh.exact[k] <= given[k] && (k == i ==> sh.exact[k] < given[k]) {
        OneMore(sh.sum, sh.floors[k]);
        if xs[k] == sh.floors[k] {
          assert Precedes(sh, i, k);
        }
      }
      SumLe(sh.exact, given);
      assert false;
    }
  }

  /** Quota: every width is the exact share rounded down or up. */
  lemma {:induction false} Quota(sh: Shares, total: nat, xs: seq<nat>, i: nat)
    requires sh.Valid(total) && Apportions(sh, total, xs) && i < |xs|
    ensures sh.sum * xs[i] < sh.exact[i] + sh.sum
    ensures sh.exact[i] < sh.sum * xs[i] + sh.sum
  {
    WinnersHaveRemainder(sh, total, xs, i);
    OneMore(sh.sum, sh.floors[i]);
  }

  lemma {:induction false} FloorsMonotone(s: nat, fa: nat, ra: nat, fb: nat, rb: nat)
    requires ra < s && rb < s && s * fa + ra >= s * fb + rb
    ensures fa > fb || (fa == fb && ra >= rb)
  {
    if fa < fb {
      MulStep(s, fa, fb);
      assert false;
    }
  }

  /** A larger share is never narrower; equal shares differ by at most one column, which
      goes to the earlier entry. */
  lemma {:induction false} LargerIsWider(sh: Shares, total: nat, xs: seq<nat>, a: nat, b: nat)
    requires sh.Valid(total) && Apportions(sh, total, xs) && a < |xs| && b < |xs|
    ensures sh.exact[a] > sh.exact[b] ==> xs[a] >= xs[b]
    ensures sh.exact[a] == sh.exact[b] && a <= b ==> xs[b] <= xs[a] <= xs[b] + 1
  {
    if sh.exact[a] >= sh.exact[b] {
      FloorsMonotone(sh.sum, sh.floors[a], sh.rems[a], sh.floors[b], sh.rems[b]);
      if sh.exact[a] == sh.exact[b] {
        FloorsMonotone(sh.sum, sh.floors[b], sh.rems[b], sh.floors[a], sh.rems[a]);
      }
      assert xs[b] == sh.floors[b] + 1 && xs[a] == sh.floors[a] ==> Precedes(sh, b, a);
    }
  }

  // ----- optimality -----

  function Abs(x: int): nat {
    if x < 0 then -x else x
  }

  /** How far each entry of xs is from its exact share, in units of 1 / sum. */
  function Errors(sh: Shares, xs: seq<int>): (r: seq<nat>)
    requires |xs| == |sh.exact|
    ensures |r| == |xs|
    ensures forall i :: 0 <= i < |xs| ==> r[i] == Abs(xs[i] * sh.sum - sh.exact[i])
  {
    seq(|xs|, i requires 0 <= i < |xs| => Abs(xs[i] * sh.sum - sh.exact[i]))
  }

  /** A remainder that separates the entries with an extra column from those without. */
  lemma {:induction false} Threshold(sh: Shares, total: nat, xs: seq<nat>, n: nat) returns (t: nat)
    requires sh.Valid(total) && Apportions(sh, total, xs) && n <= |xs|
    ensures t <= sh.sum
    ensures forall i :: 0 <= i < |xs| && xs[i] == sh.floors[i] + 1 ==> t <= sh.rems[i]
    ensures forall i :: 0 <= i < n && xs[i] == sh.floors[i] ==> sh.rems[i] <= t
  {
    t := 0;
    if n > 0 {
      t := Threshold(sh, total, xs, n - 1);
      if xs[n - 1] == sh.floors[n - 1] {
        assert forall i :: 0 <= i < |xs| && xs[i] == sh.floors[i] + 1 ==> Precedes(sh, i, n - 1);
        t := Max(t, sh.rems[n - 1]);
      }
    }
  }

  /** With d = y - x columns moved: the cost of y is that of x plus at least (s - 2t) a column. */
  lemma {:induction false} SlopeFromFloor(s: nat, r: nat, t: nat, d: int)
    requires r <= t <= s
    ensures Abs(d * s - r) >= r + (s - 2 * t) * d
  {
    assert (s - 2 * t) * d == d * s - 2 * (t * d);
    if d >= 1 {
      assert d * s >= s;
      assert t * (d - 1) >= 0;
    } else {
      assert (s - t) * -d >= 0;
      assert (s - t) * -d == -(d * s) + t * d;
      assert d * s <= 0;
    }
  }

  lemma {:induction false} SlopeFromCeiling(s: nat, r: nat, t: nat, d: int)
    requires t <= r < s
    ensures Abs((d + 1) * s - r) >= (s - r) + (s - 2 * t) * d
  {
    SlopeFromFloor(s, s - r, s - t, -d);
    assert -d * s - (s - r) == -((d + 1) * s - r);
    assert (s - 2 * (s - t)) * -d == (s - 2 * t) * d;
  }

  lemma {:induction false} Subgradient(s: nat, f: nat, r: nat, t: nat, x: int, y: int)
    requires r < s && t <= s
    requires (x == f + 1 && t <= r) || (x == f && r <= t)
    ensures Abs(y * s - (s * f + r)) >= Abs(x * s - (s * f + r)) + (s - 2 * t) * (y - x)
  {
    assert y * s == (y - f) * s + s * f;
    assert x * s == (x - f) * s + s * f;
    if x == f {
      SlopeFromFloor(s, r, t, y - x);
    } else {
      SlopeFromCeiling(s, r, t, y - x);
    }
  }

  lemma {:induction false} ErrorSlope(sh: Shares, total: nat, xs: seq<nat>, ys: seq<int>, t: nat, i: nat)
    requires sh.Valid(total) && Apportions(sh, total, xs) && i < |xs| == |ys| && t <= sh.sum
    requires xs[i] == sh.floors[i] + 1 ==> t <= sh.rems[i]
    requires xs[i] == sh.floors[i] ==> sh.rems[i] <= t
    ensures Errors(sh, ys)[i] >= Errors(sh, xs)[i] + (sh.sum - 2 * t) * (ys[i] - xs[i])
  {
    Subgradient(sh.sum, sh.floors[i], sh.rems[i], t, xs[i], ys[i]);
  }

  /** No other way of spending `total` columns, not even with negative widths, is closer
      to the exact shares. */
  lemma {:induction false} LargestRemainderOptimal(sh: Shares, total: nat, xs: seq<nat>, ys: seq<int>)
    requires sh.Valid(total) && Apportions(sh, total, xs)
    requires |ys| == |xs| && Sum(ys) == total
    ensures Sum(Errors(sh, xs)) <= Sum(Errors(sh, ys))
  {
    var t := Threshold(sh, total, xs, |xs|);
    forall i | 0 <= i < |xs|
      ensures Errors(sh, ys)[i] >= Errors(sh, xs)[i] + (sh.sum - 2 * t) * (ys[i] - xs[i])
    {
      ErrorSlope(sh, total, xs, ys, t, i);
    }
    LagrangeBound(xs, ys, Errors(sh, xs), Errors(sh, ys), sh.sum - 2 * t);
  }
}
