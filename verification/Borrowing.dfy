/** The borrowing stage of `allocate_widths` (core/src/bar.rs): a weighted entry that
    rounded to no column takes one from the currently widest entry. */
module Borrowing {
  import opened Machine
  import opened Sums

  /** The last of the widest entries that have a column to spare. */
  function WidestDonor(xs: seq<nat>): (d: Option<nat>)
    ensures d.None? ==> forall k :: 0 <= k < |xs| ==> xs[k] <= 1
    ensures d.Some? ==> d.value < |xs| && xs[d.value] > 1
    ensures d.Some? ==> forall k :: 0 <= k < |xs| ==> xs[k] <= xs[d.value]
    ensures d.Some? ==> forall k :: d.value < k < |xs| ==> xs[k] < xs[d.value]
  {
    if xs == [] then None
    else
      var n := |xs| - 1;
      var d := WidestDonor(xs[..n]);
      if xs[n] > 1 && (d.None? || xs[n] >= xs[d.value]) then Some(n) else d
  }

  /** Weighted, and without a column before borrowing. */
  predicate Invisible(ws: seq<u64>, before: seq<nat>, i: nat)
    requires i < |ws| == |before|
  {
    ws[i] > 0 && before[i] == 0
  }

  /** Every entry keeps its width, gives columns but not its last, or receives one
      because it was invisible. */
  ghost predicate OnlyNeedyReceive(ws: seq<u64>, before: seq<nat>, after: seq<nat>)
    requires |ws| == |before| == |after|
  {
    forall i :: 0 <= i < |ws| ==>
      && (after[i] <= before[i] || (Invisible(ws, before, i) && after[i] == 1))
      && (before[i] > 0 ==> after[i] > 0)
  }

  /** A donor ends up at most one column narrower than anyone, and level with or wider
      than the entries after it. */
  ghost predicate DonorsLevel(before: seq<nat>, after: seq<nat>)
    requires |before| == |after|
  {
    forall i, j :: 0 <= i < |after| && 0 <= j < |after| && after[i] < before[i] ==>
      after[j] <= after[i] + (if j < i then 1 else 0)
  }

  /** Nobody is served while an earlier invisible entry goes without. */
  ghost predicate ServedInOrder(ws: seq<u64>, before: seq<nat>, after: seq<nat>)
    requires |ws| == |before| == |after|
  {
    forall i, j :: 0 <= i < j < |ws| && Invisible(ws, before, i) && Invisible(ws, before, j) && after[j] > 0
                   ==> after[i] > 0
  }

  /** Among the first n entries, the weighted ones all show; or nothing is left to borrow. */
  ghost predicate Exhausted(ws: seq<u64>, after: seq<nat>, n: nat)
    requires |ws| == |after| && n <= |ws|
  {
    || (forall i :: 0 <= i < n && ws[i] > 0 ==> after[i] > 0)
    || (forall i :: 0 <= i < |after| ==> after[i] <= 1)
  }

  /** The specification of the second stage, for borrowers among the first n entries. */
  ghost predicate IsLevelled(ws: seq<u64>, before: seq<nat>, after: seq<nat>, n: nat) {
    && |ws| == |before| == |after| && n <= |ws|
    && Sum(after) == Sum(before)
    && OnlyNeedyReceive(ws, before, after)
    && DonorsLevel(before, after)
    && ServedInOrder(ws, before, after)
    && Exhausted(ws, after, n)
    && forall i :: n <= i < |ws| && before[i] == 0 ==> after[i] == 0
  }

  /** One turn of the loop, for entry i. */
  function Borrow(ws: seq<u64>, cur: seq<nat>, i: nat): (next: seq<nat>)
    requires |ws| == |cur| && i < |ws|
    ensures |next| == |cur|
  {
    var d := WidestDonor(cur);
    if ws[i] > 0 && cur[i] == 0 && d.Some?
    then cur[d.value := cur[d.value] - 1][i := 1]
    else cur
  }

  lemma {:induction false} BorrowKeepsSum(ws: seq<u64>, cur: seq<nat>, i: nat)
    requires |ws| == |cur| && i < |ws|
    ensures Sum(Borrow(ws, cur, i)) == Sum(cur)
  {
    var d := WidestDonor(cur);
    if ws[i] > 0 && cur[i] == 0 && d.Some? {
      SumUpdate(cur, d.value, cur[d.value] - 1);
      SumUpdate(cur[d.value := cur[d.value] - 1], i, 1);
    }
  }

  lemma {:induction false} BorrowKeepsDonorsLevel(ws: seq<u64>, before: seq<nat>, cur: seq<nat>, i: nat)
    requires IsLevelled(ws, before, cur, i) && i < |ws|
    ensures DonorsLevel(before, Borrow(ws, cur, i))
  {
    var next := Borrow(ws, cur, i);
    if next != cur {
      var d := WidestDonor(cur).value;
      forall a, b | 0 <= a < |ws| && 0 <= b < |ws| && next[a] < before[a]
        ensures next[b] <= next[a] + (if b < a then 1 else 0)
      {
        assert a != d ==> cur[a] < before[a] && cur[b] <= cur[a] + (if b < a then 1 else 0);
        assert cur[b] <= cur[d];
      }
    }
  }

  lemma {:induction false} BorrowServesInOrder(ws: seq<u64>, before: seq<nat>, cur: seq<nat>, i: nat)
    requires IsLevelled(ws, before, cur, i) && i < |ws|
    ensures ServedInOrder(ws, before, Borrow(ws, cur, i))
    ensures Exhausted(ws, Borrow(ws, cur, i), i + 1)
  {
    var next := Borrow(ws, cur, i);
    if next != cur {
      var d := WidestDonor(cur).value;
      assert cur[d] > 1;
      assert forall a :: 0 <= a < i && ws[a] > 0 ==> cur[a] > 0;
      assert forall a :: 0 <= a < |ws| && cur[a] > 0 ==> next[a] > 0;
    }
  }

  /** One turn of the loop keeps the specification. */
  lemma {:induction false} BorrowStep(ws: seq<u64>, before: seq<nat>, cur: seq<nat>, i: nat)
    requires IsLevelled(ws, before, cur, i) && i < |ws|
    ensures IsLevelled(ws, before, Borrow(ws, cur, i), i + 1)
  {
    BorrowKeepsSum(ws, cur, i);
    BorrowKeepsDonorsLevel(ws, before, cur, i);
    BorrowServesInOrder(ws, before, cur, i);
  }

  /** The specification leaves no choice. */
  lemma {:induction false} LevelledUnique(ws: seq<u64>, before: seq<nat>, a: seq<nat>, b: seq<nat>)
    requires IsLevelled(ws, before, a, |ws|) && IsLevelled(ws, before, b, |ws|)
    ensures a == b
  {
    if a != b {
      var i, j := EqualSumsDifferBothWays(a, b);
      assert false;
    }
  }

  /** Visibility is as good as it can be: everyone weighted shows if there is room, and
      otherwise nobody holds more than one column. */
  lemma {:induction false} Visibility(ws: seq<u64>, before: seq<nat>, after: seq<nat>)
    requires IsLevelled(ws, before, after, |ws|)
    requires forall i :: 0 <= i < |ws| && ws[i] == 0 ==> before[i] == 0
    ensures forall i :: 0 <= i < |ws| && ws[i] == 0 ==> after[i] == 0
    ensures Sum(before) >= Positives(ws) ==> forall i :: 0 <= i < |ws| && ws[i] > 0 ==> after[i] > 0
    ensures Sum(before) <= Positives(ws) ==> forall i :: 0 <= i < |ws| ==> after[i] <= 1
    ensures Positives(after) == Min(Sum(before), Positives(ws))
  {
    CountShown(ws, after);
  }

  function Distance(a: int, b: int): nat {
    if b < a then a - b else b - a
  }

  /** How far two rows of widths are apart. */
  function Moved(before: seq<int>, after: seq<int>): (r: seq<nat>)
    requires |before| == |after|
    ensures |r| == |after|
    ensures forall i :: 0 <= i < |after| ==> r[i] == Distance(before[i], after[i])
  {
    seq(|after|, i requires 0 <= i < |after| => Distance(before[i], after[i]))
  }

  lemma {:induction false} FewestMoved(ws: seq<u64>, before: seq<nat>, after: seq<nat>, other: seq<nat>)
    requires |ws| == |before| == |after| == |other| && OnlyNeedyReceive(ws, before, after)
    requires Sum(after) == Sum(other)
    requires forall i :: 0 <= i < |ws| && ws[i] > 0 ==> other[i] > 0
    ensures Sum(Moved(before, after)) <= Sum(Moved(before, other))
  {
    var m, m' := Moved(before, after), Moved(before, other);
    forall i | 0 <= i < |ws| ensures m'[i] >= m[i] + -1 * (other[i] as int - after[i] as int) {
      assert m[i] == Distance(before[i], after[i]) && m'[i] == Distance(before[i], other[i]);
    }
    LagrangeBound(after, other, m, m', -1);
  }

  /** No row of the same length and sum that shows every weighted entry moves fewer columns. */
  lemma {:induction false} BorrowsFewest(ws: seq<u64>, before: seq<nat>, after: seq<nat>, other: seq<nat>)
    requires IsLevelled(ws, before, after, |ws|)
    requires |other| == |ws| && Sum(other) == Sum(before)
    requires forall i :: 0 <= i < |ws| && ws[i] > 0 ==> other[i] > 0
    ensures Sum(Moved(before, after)) <= Sum(Moved(before, other))
  {
    FewestMoved(ws, before, after, other);
  }
}
