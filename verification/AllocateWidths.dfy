/** `allocate_widths` (core/src/bar.rs): the two stages run in place over a row of widths. */
module AllocateWidths {
  import opened Machine
  import opened Sums
  import opened Sorting
  import opened Apportion
  import opened Borrowing

  /** The specification of the whole allocation; both of its stages have one solution. */
  ghost predicate IsAllocation(ws: seq<u64>, total: usize, widths: seq<nat>) {
    if Sum(ws) <= 0 || total == 0 then widths == seq(|ws|, i => 0)
    else exists shares: seq<nat> :: IsLargestRemainder(ws, total, shares) && IsLevelled(ws, shares, widths, |ws|)
  }

  lemma {:induction false} AllocationUnique(ws: seq<u64>, total: usize, a: seq<nat>, b: seq<nat>)
    requires IsAllocation(ws, total, a) && IsAllocation(ws, total, b)
    ensures a == b
  {
    if Sum(ws) != 0 && total != 0 {
      WeightsSum(ws);
      var sa: seq<nat> :| IsLargestRemainder(ws, total, sa) && IsLevelled(ws, sa, a, |ws|);
      var sb: seq<nat> :| IsLargestRemainder(ws, total, sb) && IsLevelled(ws, sb, b, |ws|);
      LargestRemainderUnique(ws, total, sa, sb);
      LevelledUnique(ws, sa, a, b);
    }
  }

  lemma {:induction false} WeightsSum(ws: seq<u64>)
    ensures 0 <= Sum(ws) <= |ws| * U64_MAX
  {
    if ws != [] {
      WeightsSum(ws[..|ws| - 1]);
    }
  }

  // ----- the order of service -----

  function RemainderAt(rems: seq<nat>, i: nat): nat {
    if i < |rems| then rems[i] else 0
  }

  /** The comparison the original sorts by: larger remainders first. */
  function ByRemainder(rems: seq<nat>): (nat, nat) -> bool {
    (a: nat, b: nat) => RemainderAt(rems, a) >= RemainderAt(rems, b)
  }

  function Iota(n: nat): (r: seq<nat>)
    ensures |r| == n && forall i :: 0 <= i < n ==> r[i] == i
  {
    seq(n, i requires 0 <= i < n => i)
  }

  predicate ServedBefore(rems: seq<nat>, a: nat, b: nat) {
    || RemainderAt(rems, a) > RemainderAt(rems, b)
    || (RemainderAt(rems, a) == RemainderAt(rems, b) && a < b)
  }

  ghost predicate ServesLargerThenEarlier(rems: seq<nat>, order: seq<nat>) {
    forall p, q :: 0 <= p < q < |order| ==> ServedBefore(rems, order[p], order[q])
  }

  lemma {:induction false} ConsServes(rems: seq<nat>, first: nat, rest: seq<nat>)
    requires ServesLargerThenEarlier(rems, rest)
    requires forall p :: 0 <= p < |rest| ==> ServedBefore(rems, first, rest[p])
    ensures ServesLargerThenEarlier(rems, [first] + rest)
  {
  }

  lemma {:induction false} InsertServes(rems: seq<nat>, x: nat, order: seq<nat>)
    requires ServesLargerThenEarlier(rems, order)
    requires forall p :: 0 <= p < |order| ==> x < order[p]
    ensures ServesLargerThenEarlier(rems, Insert(x, order, ByRemainder(rems)))
  {
    var le := ByRemainder(rems);
    if order == [] {
    } else if le(x, order[0]) {
      forall q | 0 <= q < |order| ensures ServedBefore(rems, x, order[q]) {
        assert q > 0 ==> ServedBefore(rems, order[0], order[q]);
      }
      ConsServes(rems, x, order);
    } else {
      InsertServes(rems, x, order[1..]);
      var r := Insert(x, order[1..], le);
      forall p | 0 <= p < |r| ensures ServedBefore(rems, order[0], r[p]) {
        assert r[p] in multiset(r);
        if r[p] != x {
          var q :| 1 <= q < |order| && order[q] == r[p];
        }
      }
      ConsServes(rems, order[0], r);
    }
  }

  /** The stable sort of an increasing list of entries serves them by remainder and then by position. */
  lemma {:induction false} OrderServes(rems: seq<nat>, xs: seq<nat>)
    requires forall i, j :: 0 <= i < j < |xs| ==> xs[i] < xs[j]
    ensures ServesLargerThenEarlier(rems, StableSort(xs, ByRemainder(rems)))
  {
    if xs != [] {
      OrderServes(rems, xs[1..]);
      var rest := StableSort(xs[1..], ByRemainder(rems));
      forall p | 0 <= p < |rest| ensures xs[0] < rest[p] {
        assert rest[p] in multiset(rest);
        assert rest[p] in xs[1..];
      }
      InsertServes(rems, xs[0], rest);
    }
  }

  /** The entries in order of service. */
  function ServiceOrder(rems: seq<nat>): (order: seq<nat>)
    ensures |order| == |rems|
  {
    StableSort(Iota(|rems|), ByRemainder(rems))
  }

  lemma {:induction false} ServiceOrderIsPermutation(rems: seq<nat>)
    ensures ServesLargerThenEarlier(rems, ServiceOrder(rems))
    ensures forall p :: 0 <= p < |rems| ==> ServiceOrder(rems)[p] < |rems|
    ensures forall i :: 0 <= i < |rems| ==> i in ServiceOrder(rems)
    ensures forall p, q :: 0 <= p < q < |rems| ==> ServiceOrder(rems)[p] != ServiceOrder(rems)[q]
  {
    var n, order := |rems|, ServiceOrder(rems);
    OrderServes(rems, Iota(n));
    forall p | 0 <= p < n ensures order[p] < n {
      assert order[p] in multiset(order);
      assert order[p] in Iota(n);
    }
    forall i | 0 <= i < n ensures i in order {
      assert Iota(n)[i] in multiset(Iota(n));
      assert i in multiset(order);
    }
    assert forall p, q :: 0 <= p < q < n ==> ServedBefore(rems, order[p], order[q]);
  }

  // ----- the algorithm -----

  /** The floors and their remainders, entry by entry. */
  method FloorShares(weights: seq<u64>, total: usize, sum: u128)
    returns (widths: array<usize>, remainders: array<u128>, given: usize)
    requires sum == Sum(weights) > 0
    ensures fresh(widths) && fresh(remainders)
    ensures widths[..] == HareShares(weights, total).floors
    ensures remainders[..] == HareShares(weights, total).rems
    ensures given == Sum(widths[..]) && 0 <= total - given < |weights|
  {
    ghost var sh := HareShares(weights, total);
    HareSharesValid(weights, total);
    LeftoverIsSmall(sh, total);
    var n := |weights|;
    widths := new usize[n](i => 0);
    remainders := new u128[n](i => 0);
    given := 0;
    for i := 0 to n
      invariant widths[..i] == sh.floors[..i] && remainders[..i] == sh.rems[..i]
      invariant given == Sum(sh.floors[..i])
    {
      FloorFits(sh, total, i);
      ShareAt(weights, total, i);
      ProductFits(weights[i], total);
      var exact: u128 := weights[i] * total;
      widths[i] := DivMod(exact, sum).0;
      remainders[i] := DivMod(exact, sum).1;
      SumPrefix(sh.floors, i);
      given := given + widths[i];
    }
    assert widths[..] == widths[..n] && remainders[..] == remainders[..n];
    assert sh.floors == sh.floors[..n];
  }

  lemma {:induction false} ShareAt(ws: seq<u64>, total: usize, i: nat)
    requires Sum(ws) > 0 && i < |ws|
    ensures var sh := HareShares(ws, total);
            |sh.floors| == |sh.rems| == |ws| && (sh.floors[i], sh.rems[i]) == DivMod(ws[i] * total, Sum(ws))
  {
  }

  /** No floor, and no sum of the first few, is more than the total. */
  lemma {:induction false} FloorFits(sh: Shares, total: nat, i: nat)
    requires sh.Valid(total) && i < |sh.floors|
    ensures 0 <= sh.floors[i] <= total && sh.floors[i] + Sum(sh.floors[..i]) <= total
  {
    LeftoverIsSmall(sh, total);
    PrefixAtMostSum(sh.floors, i + 1);
    PrefixAtMostSum(sh.floors, i);
    SumPrefix(sh.floors, i);
  }

  lemma {:induction false} PrefixAtMostSum(s: seq<nat>, i: nat)
    requires i <= |s|
    ensures 0 <= Sum(s[..i]) <= Sum(s)
    decreases |s| - i
  {
    if i < |s| {
      PrefixAtMostSum(s, i + 1);
      SumPrefix(s, i);
    } else {
      assert s[..i] == s;
    }
    SumPositive(s[..i]);
  }

  /** One more column for each of the first p entries served. */
  ghost function WithExtras(floors: seq<nat>, order: seq<nat>, p: nat): (xs: seq<nat>)
    requires p <= |order|
    ensures |xs| == |floors|
  {
    if p == 0 then floors
    else
      var xs := WithExtras(floors, order, p - 1);
      var i := order[p - 1];
      if i < |xs| then xs[i := xs[i] + 1] else xs
  }

  lemma {:induction false} ExtrasAt(floors: seq<nat>, order: seq<nat>, p: nat)
    requires p <= |order| == |floors|
    requires forall q :: 0 <= q < |order| ==> order[q] < |order|
    requires forall q, q' :: 0 <= q < q' < |order| ==> order[q] != order[q']
    ensures Sum(WithExtras(floors, order, p)) == Sum(floors) + p
    ensures forall q :: 0 <= q < |order| ==>
      WithExtras(floors, order, p)[order[q]] == floors[order[q]] + (if q < p then 1 else 0)
  {
    if p > 0 {
      ExtrasAt(floors, order, p - 1);
      var xs := WithExtras(floors, order, p - 1);
      var i := order[p - 1];
      SumUpdate(xs, i, xs[i] + 1);
      assert forall q :: 0 <= q < |order| && q != p - 1 ==> order[q] != i;
    }
  }

  lemma {:induction false} ExtraFits(rems: seq<nat>, floors: seq<nat>, p: nat, total: nat)
    requires p < |floors| == |rems| && Sum(floors) + p < total
    ensures var i := ServiceOrder(rems)[p];
            i < |rems| && WithExtras(floors, ServiceOrder(rems), p)[i] < total
  {
    ServiceOrderIsPermutation(rems);
    ExtrasAt(floors, ServiceOrder(rems), p);
    ElementAtMostSum(WithExtras(floors, ServiceOrder(rems), p), ServiceOrder(rems)[p]);
  }

  /** Where entry i stands in the order of service decides whether it has an extra column. */
  lemma {:induction false} ExtraOf(rems: seq<nat>, floors: seq<nat>, p: nat, i: nat) returns (q: nat)
    requires p <= |floors| == |rems| && i < |floors|
    ensures q < |rems| && ServiceOrder(rems)[q] == i
    ensures WithExtras(floors, ServiceOrder(rems), p)[i] == floors[i] + (if q < p then 1 else 0)
  {
    var order := ServiceOrder(rems);
    ServiceOrderIsPermutation(rems);
    ExtrasAt(floors, order, p);
    assert i in order;
    q :| 0 <= q < |order| && order[q] == i;
  }

  lemma {:induction false} ExtrasPrecede(sh: Shares, p: nat, i: nat, j: nat)
    requires p <= |sh.floors| == |sh.rems| && i < |sh.floors| && j < |sh.floors|
    requires WithExtras(sh.floors, ServiceOrder(sh.rems), p)[i] == sh.floors[i] + 1
    requires WithExtras(sh.floors, ServiceOrder(sh.rems), p)[j] == sh.floors[j]
    ensures Precedes(sh, i, j)
  {
    var q := ExtraOf(sh.rems, sh.floors, p, i);
    var q' := ExtraOf(sh.rems, sh.floors, p, j);
    ServiceOrderIsPermutation(sh.rems);
    assert ServedBefore(sh.rems, ServiceOrder(sh.rems)[q], ServiceOrder(sh.rems)[q']);
  }

  lemma {:induction false} ExtrasSum(rems: seq<nat>, floors: seq<nat>, p: nat)
    requires p <= |floors| == |rems|
    ensures Sum(WithExtras(floors, ServiceOrder(rems), p)) == Sum(floors) + p
  {
    ServiceOrderIsPermutation(rems);
    ExtrasAt(floors, ServiceOrder(rems), p);
  }

  /** Extra columns for the first p entries served make the apportionment, if that spends the total. */
  lemma {:induction false} ExtrasApportion(sh: Shares, total: nat, p: nat)
    requires p <= |sh.floors| == |sh.rems| && Sum(sh.floors) + p == total
    ensures Apportions(sh, total, WithExtras(sh.floors, ServiceOrder(sh.rems), p))
  {
    var xs := WithExtras(sh.floors, ServiceOrder(sh.rems), p);
    ExtrasSum(sh.rems, sh.floors, p);
    forall i | 0 <= i < |xs| ensures sh.floors[i] <= xs[i] <= sh.floors[i] + 1 {
      var q := ExtraOf(sh.rems, sh.floors, p, i);
    }
    forall i, j | 0 <= i < |xs| && 0 <= j < |xs| && xs[i] == sh.floors[i] + 1 && xs[j] == sh.floors[j]
      ensures Precedes(sh, i, j)
    {
      ExtrasPrecede(sh, p, i, j);
    }
  }

  /** Hands the leftover columns out in order of service. */
  method HandOut(ghost sh: Shares, total: usize, widths: array<usize>, remainders: array<u128>, given: usize)
    requires widths[..] == sh.floors && remainders[..] == sh.rems && |sh.floors| == |sh.rems|
    requires given == Sum(sh.floors) && 0 <= total - given < |sh.floors|
    modifies widths
    ensures Apportions(sh, total, widths[..])
  {
    var n := widths.Length;
    var order := ServiceOrder(remainders[..]);
    var leftover: usize := total - given;
    var p := 0;
    while p < n && leftover != 0
      invariant 0 <= p <= n && leftover == total - given - p
      invariant widths[..] == WithExtras(sh.floors, order, p)
    {
      var i := order[p];
      ExtraFits(sh.rems, sh.floors, p, total);
      widths[i] := widths[i] + 1;
      leftover := leftover - 1;
      p := p + 1;
    }
    ExtrasApportion(sh, total, p);
  }

  /** The row after the first n entries have had their turn. */
  ghost function BorrowedUpTo(ws: seq<u64>, before: seq<nat>, n: nat): (cur: seq<nat>)
    requires n <= |ws| == |before|
    ensures |cur| == |ws|
  {
    if n == 0 then before else Borrow(ws, BorrowedUpTo(ws, before, n - 1), n - 1)
  }

  lemma {:induction false} NothingBorrowed(ws: seq<u64>, before: seq<nat>)
    requires |ws| == |before|
    ensures IsLevelled(ws, before, before, 0)
  {
  }

  lemma {:induction false} BorrowedIsLevelled(ws: seq<u64>, before: seq<nat>, n: nat)
    requires n <= |ws| == |before|
    ensures IsLevelled(ws, before, BorrowedUpTo(ws, before, n), n)
  {
    if n == 0 {
      NothingBorrowed(ws, before);
    } else {
      var i, cur := n - 1, BorrowedUpTo(ws, before, n - 1);
      BorrowedIsLevelled(ws, before, i);
      BorrowStep(ws, before, cur, i);
      assert BorrowedUpTo(ws, before, n) == Borrow(ws, cur, i);
    }
  }

  /** Borrows a column for every weighted entry without one, while somebody has one to spare. */
  method BorrowColumns(weights: seq<u64>, widths: array<usize>)
    requires widths.Length == |weights|
    modifies widths
    ensures IsLevelled(weights, old(widths[..]), widths[..], |weights|)
  {
    ghost var before := widths[..];
    for i := 0 to |weights|
      invariant widths[..] == BorrowedUpTo(weights, before, i)
    {
      ghost var cur: seq<nat> := widths[..];
      if weights[i] > 0 && widths[i] == 0 {
        var donor := WidestDonor(widths[..]);
        if donor.Some? {
          var j := donor.value;
          widths[j] := widths[j] - 1;
          widths[i] := widths[i] + 1;
          assert widths[..] == cur[j := cur[j] - 1][i := 1];
        }
      }
      assert widths[..] == Borrow(weights, cur, i);
    }
    BorrowedIsLevelled(weights, before, |weights|);
  }

  method Allocate(weights: seq<u64>, total: usize) returns (widths: seq<usize>)
    requires |weights| <= U64_MAX
    ensures IsAllocation(weights, total, widths)
  {
    var n := |weights|;
    WeightsSum(weights);
    ProductLe(n, U64_MAX, U64_MAX, U64_MAX);
    var sum: u128 := Sum(weights);
    if n == 0 || total == 0 || sum == 0 {
      return seq(n, i => 0);
    }
    var row, remainders, given := FloorShares(weights, total, sum);
    HareSharesValid(weights, total);
    HandOut(HareShares(weights, total), total, row, remainders, given);
    ghost var shares: seq<nat> := row[..];
    BorrowColumns(weights, row);
    widths := row[..];
  }

  // ----- what the allocation promises -----

  /** The row is filled exactly. */
  lemma {:induction false} WidthsFillTheRow(ws: seq<u64>, total: usize, widths: seq<nat>)
    requires IsAllocation(ws, total, widths)
    ensures |widths| == |ws|
    ensures Sum(widths) == if Sum(ws) > 0 then total else 0
  {
    WeightsSum(ws);
    ConstantSum(|ws|, 0);
  }

  /** With k weighted entries exactly min(total, k) of them show, never one without weight;
      if they do not all fit, nobody holds two columns. */
  lemma {:induction false} VisibleIfPossible(ws: seq<u64>, total: usize, widths: seq<nat>)
    requires IsAllocation(ws, total, widths)
    ensures |widths| == |ws|
    ensures forall i :: 0 <= i < |ws| && ws[i] == 0 ==> widths[i] == 0
    ensures total >= Positives(ws) ==> forall i :: 0 <= i < |ws| && ws[i] > 0 ==> widths[i] > 0
    ensures total <= Positives(ws) ==> forall i :: 0 <= i < |ws| ==> widths[i] <= 1
    ensures Positives(widths) == Min(total, Positives(ws))
  {
    WeightsSum(ws);
    if Sum(ws) == 0 || total == 0 {
      PositivesZero(ws);
      PositivesZero(widths);
      forall i | 0 <= i < |ws| ensures 0 <= ws[i] <= Sum(ws) {
        ElementAtMostSum(ws, i);
      }
    } else {
      var shares: seq<nat> :| IsLargestRemainder(ws, total, shares) && IsLevelled(ws, shares, widths, |ws|);
      WeightlessGetNothing(ws, total, shares);
      Visibility(ws, shares, widths);
    }
  }

  lemma {:induction false} ZeroShare(s: nat, f: nat, r: nat)
    requires s > 0
    ensures s * f + r == 0 ==> f == 0 && r == 0
  {
  }

  lemma {:induction false} WeightlessGetNothing(ws: seq<u64>, total: usize, shares: seq<nat>)
    requires Sum(ws) > 0 && IsLargestRemainder(ws, total, shares)
    ensures forall i :: 0 <= i < |ws| && ws[i] == 0 ==> shares[i] == 0
  {
    var sh := HareShares(ws, total);
    HareSharesValid(ws, total);
    forall i | 0 <= i < |ws| && ws[i] == 0 ensures shares[i] == 0 {
      WinnersHaveRemainder(sh, total, shares, i);
      ZeroShare(sh.sum, sh.floors[i], sh.rems[i]);
    }
  }

  lemma {:induction false} LevelledBelowCeiling(sh: Shares, total: nat, shares: seq<nat>, i: nat, width: nat)
    requires sh.Valid(total) && Apportions(sh, total, shares) && i < |shares|
    requires 0 < width && (width <= shares[i] || (width == 1 && sh.exact[i] > 0))
    ensures sh.sum * (width - 1) < sh.exact[i]
  {
    if width <= shares[i] {
      Quota(sh, total, shares, i);
      if width < shares[i] {
        MulStep(sh.sum, width, shares[i]);
      }
    }
    OneMore(sh.sum, width - 1);
  }

  /** No width exceeds the exact share rounded up. */
  lemma {:induction false} NeverAboveCeiling(ws: seq<u64>, total: usize, widths: seq<nat>, i: nat)
    requires IsAllocation(ws, total, widths) && i < |ws| == |widths| && widths[i] > 0
    ensures Sum(ws) * (widths[i] - 1) < ws[i] * total
  {
    var shares: seq<nat> :| IsLargestRemainder(ws, total, shares) && IsLevelled(ws, shares, widths, |ws|);
    var sh := HareShares(ws, total);
    HareSharesValid(ws, total);
    MulIncreases(ws[i], 0, total);
    LevelledBelowCeiling(sh, total, shares, i, widths[i]);
  }

  lemma {:induction false} MulIncreases(a: nat, b: nat, c: nat)
    requires c > 0
    ensures a > b <==> a * c > b * c
    ensures a == b <==> a * c == b * c
  {
    assert (a - b) * c == a * c - b * c;
    if a > b {
      assert (a - b) * c > 0;
    } else if a < b {
      assert (b - a) * c > 0;
    }
  }

  /** Borrowing disturbs the order of widths by at most one column. */
  lemma {:induction false} HeavierAlmostWider(ws: seq<u64>, total: usize, widths: seq<nat>, a: nat, b: nat)
    requires IsAllocation(ws, total, widths) && |widths| == |ws|
    requires a < |ws| && b < |ws| && ws[a] >= ws[b]
    ensures widths[a] + 1 >= widths[b]
  {
    WeightsSum(ws);
    if Sum(ws) > 0 && total > 0 {
      var shares: seq<nat> :| IsLargestRemainder(ws, total, shares) && IsLevelled(ws, shares, widths, |ws|);
      SharesFollowWeights(ws, total, shares, a, b);
    }
  }

  /** Before borrowing, a strictly heavier entry is never narrower, and equal weights
      differ by at most one column in favour of the earlier. */
  lemma {:induction false} SharesFollowWeights(ws: seq<u64>, total: usize, shares: seq<nat>, a: nat, b: nat)
    requires Sum(ws) > 0 && total > 0 && IsLargestRemainder(ws, total, shares) && a < |ws| && b < |ws|
    ensures ws[a] > ws[b] ==> shares[a] >= shares[b]
    ensures ws[a] == ws[b] && a <= b ==> shares[b] <= shares[a] <= shares[b] + 1
    ensures ws[a] >= ws[b] ==> shares[a] + 1 >= shares[b]
  {
    var sh := HareShares(ws, total);
    HareSharesValid(ws, total);
    LargerIsWider(sh, total, shares, a, b);
    LargerIsWider(sh, total, shares, b, a);
    MulIncreases(ws[a], ws[b], total);
  }

  /** Summed over the row, how far widths are from the shares weight * total / sum, in units of 1 / sum. */
  function Deviation(ws: seq<u64>, total: usize, widths: seq<int>): int
    requires |widths| == |ws|
  {
    Sum(seq(|ws|, i requires 0 <= i < |ws| => Abs(widths[i] * Sum(ws) - ws[i] * total)))
  }

  /** Before borrowing, no integer vector with the same sum is closer to the exact shares. */
  lemma {:induction false} SharesAreOptimal(ws: seq<u64>, total: usize, shares: seq<nat>, other: seq<int>)
    requires Sum(ws) > 0 && IsLargestRemainder(ws, total, shares)
    requires |shares| == |ws| == |other| && Sum(other) == total
    ensures Deviation(ws, total, shares) <= Deviation(ws, total, other)
  {
    var sh := HareShares(ws, total);
    HareSharesValid(ws, total);
    LargestRemainderOptimal(sh, total, shares, other);
    DeviationIsErrorSum(ws, total, shares);
    DeviationIsErrorSum(ws, total, other);
  }

  lemma {:induction false} DeviationIsErrorSum(ws: seq<u64>, total: usize, xs: seq<int>)
    requires Sum(ws) > 0 && |xs| == |ws|
    ensures |HareShares(ws, total).exact| == |ws|
    ensures Deviation(ws, total, xs) == Sum(Errors(HareShares(ws, total), xs))
  {
    assert seq(|ws|, i requires 0 <= i < |ws| => Abs(xs[i] * Sum(ws) - ws[i] * total))
        == Errors(HareShares(ws, total), xs);
  }

  lemma {:induction false} NobodyInvisible(ws: seq<u64>, before: seq<nat>, after: seq<nat>)
    requires IsLevelled(ws, before, after, |ws|)
    requires forall i :: 0 <= i < |ws| ==> !Invisible(ws, before, i)
    ensures after == before
  {
    if after != before {
      var i, j := EqualSumsDifferBothWays(after, before);
      assert false;
    }
  }

  lemma {:induction false} WorthAColumn(s: nat, e: nat, f: nat, r: nat)
    requires e == s * f + r && r < s <= e
    ensures f > 0
  {
  }

  /** If every weighted entry is worth a column, nothing is borrowed and every width is its
      exact share rounded down or up. */
  lemma {:induction false} DrawnToScale(ws: seq<u64>, total: usize, widths: seq<nat>, i: nat)
    requires IsAllocation(ws, total, widths) && Sum(ws) > 0 && total > 0 && i < |ws| == |widths|
    requires forall k :: 0 <= k < |ws| && ws[k] > 0 ==> Sum(ws) <= ws[k] * total
    ensures Sum(ws) * widths[i] < ws[i] * total + Sum(ws)
    ensures ws[i] * total < Sum(ws) * widths[i] + Sum(ws)
  {
    var shares: seq<nat> :| IsLargestRemainder(ws, total, shares) && IsLevelled(ws, shares, widths, |ws|);
    var sh := HareShares(ws, total);
    HareSharesValid(ws, total);
    forall k | 0 <= k < |ws| ensures !Invisible(ws, shares, k) {
      if ws[k] > 0 {
        WorthAColumn(sh.sum, sh.exact[k], sh.floors[k], sh.rems[k]);
      }
    }
    NobodyInvisible(ws, shares, widths);
    Quota(sh, total, shares, i);
  }
}
