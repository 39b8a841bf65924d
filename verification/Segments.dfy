/** `segments` (core/src/bar.rs): a sweep that turns a disk into drawable slices, one per
    partition and one per gap. */
module Segments {
  import opened Machine
  import opened Sums
  import opened Sorting
  import opened Model

  /** The pieces a legend label is put together from. */
  datatype Label = FreeLabel | PartitionLabel(name: string, kind: string)

  datatype Segment = Segment(sizeBytes: u64, index: Option<nat>, text: Label)

  function SaturatingAdd(a: u64, b: u64): u64 {
    if a + b > U64_MAX then U64_MAX else a + b
  }

  function End(p: Partition): u64 {
    SaturatingAdd(p.startOffset, p.sizeBytes)
  }

  function MaxU64(a: u64, b: u64): u64 {
    if a < b then b else a
  }

  function FreeSegment(size: u64): Segment {
    Segment(size, None, FreeLabel)
  }

  function PartitionSegment(p: Partition, index: nat): Segment {
    var kind := if p.partitionType.Some? then p.partitionType.value else "-";
    Segment(p.sizeBytes, Some(index), PartitionLabel(p.name, kind))
  }

  /** The gap in front of a partition that starts at `start`, when all below `cursor` is dealt with. */
  function GapBefore(start: u64, cursor: u64): seq<Segment> {
    if start > cursor then [FreeSegment(start - cursor)] else []
  }

  /** What one partition adds: its slice, behind the gap in front of it. */
  function Step(p: Partition, done: nat, cursor: u64): seq<Segment> {
    GapBefore(p.startOffset, cursor) + [PartitionSegment(p, done + 1)]
  }

  /** The slices of the rest of a disk: `done` partitions are drawn, all below `cursor` is dealt with. */
  function Sweep(ps: seq<Partition>, done: nat, cursor: u64, size: u64): seq<Segment> {
    if ps == [] then GapBefore(size, cursor)
    else Step(ps[0], done, cursor) + Sweep(ps[1..], done + 1, MaxU64(cursor, End(ps[0])), size)
  }

  function OnDiskOrder(disk: PhysicalDisk): seq<Partition> {
    StableSort(disk.partitions, StartsNoLater)
  }

  /** The slices of a disk. */
  function Slices(disk: PhysicalDisk): seq<Segment> {
    Sweep(OnDiskOrder(disk), 0, 0, disk.sizeBytes)
  }

  /** The cursor after the first i partitions. */
  ghost function CursorAt(ps: seq<Partition>, i: nat): u64
    requires i <= |ps|
  {
    if i == 0 then 0 else MaxU64(CursorAt(ps, i - 1), End(ps[i - 1]))
  }

  /** The slices pushed for the first i partitions. */
  ghost function Pushed(ps: seq<Partition>, i: nat): seq<Segment>
    requires i <= |ps|
  {
    if i == 0 then [] else Pushed(ps, i - 1) + Step(ps[i - 1], i - 1, CursorAt(ps, i - 1))
  }

  lemma {:induction false} PushedThenSwept(ps: seq<Partition>, i: nat, size: u64)
    requires i <= |ps|
    ensures Sweep(ps, 0, 0, size) == Pushed(ps, i) + Sweep(ps[i..], i, CursorAt(ps, i), size)
  {
    if i == 0 {
      assert ps[0..] == ps;
    } else {
      PushedThenSwept(ps, i - 1, size);
      var step, rest := Step(ps[i - 1], i - 1, CursorAt(ps, i - 1)), Sweep(ps[i..], i, CursorAt(ps, i), size);
      assert ps[i - 1..][0] == ps[i - 1] && ps[i - 1..][1..] == ps[i..];
      assert Sweep(ps[i - 1..], i - 1, CursorAt(ps, i - 1), size) == step + rest;
      ConcatAssociative(Pushed(ps, i - 1), step, rest);
    }
  }

  lemma {:induction false} PushedAll(ps: seq<Partition>, size: u64)
    ensures Sweep(ps, 0, 0, size) == Pushed(ps, |ps|) + GapBefore(size, CursorAt(ps, |ps|))
  {
    PushedThenSwept(ps, |ps|, size);
  }

  lemma {:induction false} PushedNext(ps: seq<Partition>, i: nat, segs: seq<Segment>, cursor: u64)
    requires i < |ps| && segs == Pushed(ps, i) && cursor == CursorAt(ps, i)
    ensures Pushed(ps, i + 1)
         == (if ps[i].startOffset > cursor then segs + [FreeSegment(ps[i].startOffset - cursor)] else segs)
            + [PartitionSegment(ps[i], i + 1)]
    ensures CursorAt(ps, i + 1) == MaxU64(cursor, End(ps[i]))
  {
    ConcatAssociative(segs, GapBefore(ps[i].startOffset, cursor), [PartitionSegment(ps[i], i + 1)]);
  }

  method SweepSlices(sorted: seq<Partition>, size: u64) returns (segs: seq<Segment>)
    ensures segs == Sweep(sorted, 0, 0, size)
  {
    segs := [];
    var cursor: u64 := 0;
    for i := 0 to |sorted|
      invariant segs == Pushed(sorted, i) && cursor == CursorAt(sorted, i)
    {
      var p := sorted[i];
      PushedNext(sorted, i, segs, cursor);
      if p.startOffset > cursor {
        segs := segs + [FreeSegment(p.startOffset - cursor)];
      }
      segs := segs + [PartitionSegment(p, i + 1)];
      cursor := MaxU64(cursor, SaturatingAdd(p.startOffset, p.sizeBytes));
    }
    PushedAll(sorted, size);
    if size > cursor {
      segs := segs + [FreeSegment(size - cursor)];
    }
  }

  method ListSegments(disk: PhysicalDisk) returns (segs: seq<Segment>)
    ensures segs == Slices(disk)
  {
    var sorted := StableSort(disk.partitions, StartsNoLater);
    segs := SweepSlices(sorted, disk.sizeBytes);
  }

  lemma {:induction false} StartsNoLaterOrders()
    ensures TotalPreorder(StartsNoLater)
  {
  }

  // ----- numbering and order -----

  predicate IsPartition(s: Segment) {
    s.index.Some?
  }

  predicate IsFree(s: Segment) {
    s.index.None?
  }

  function NumberedFrom(ps: seq<Partition>, done: nat): (r: seq<Segment>)
    ensures |r| == |ps| && forall k :: 0 <= k < |ps| ==> r[k] == PartitionSegment(ps[k], done + k + 1)
  {
    seq(|ps|, k requires 0 <= k < |ps| => PartitionSegment(ps[k], done + k + 1))
  }

  lemma {:induction false} NumberedCons(ps: seq<Partition>, done: nat)
    requires ps != []
    ensures NumberedFrom(ps, done) == [PartitionSegment(ps[0], done + 1)] + NumberedFrom(ps[1..], done + 1)
  {
  }

  /** The partition slices are the partitions in on-disk order, numbered from 1. */
  lemma {:induction false} PartitionsInOrder(ps: seq<Partition>, done: nat, cursor: u64, size: u64)
    ensures Filter(Sweep(ps, done, cursor, size), IsPartition) == NumberedFrom(ps, done)
  {
    if ps == [] {
    } else {
      var next := MaxU64(cursor, End(ps[0]));
      PartitionsInOrder(ps[1..], done + 1, next, size);
      var step, rest := Step(ps[0], done, cursor), Sweep(ps[1..], done + 1, next, size);
      FilterConcat(step, rest, IsPartition);
      StepFilters(ps[0], done, cursor);
      assert Sweep(ps, done, cursor, size) == step + rest;
      NumberedCons(ps, done);
    }
  }

  lemma {:induction false} StepFilters(p: Partition, done: nat, cursor: u64)
    ensures Filter(Step(p, done, cursor), IsPartition) == [PartitionSegment(p, done + 1)]
    ensures Filter(Step(p, done, cursor), IsFree) == GapBefore(p.startOffset, cursor)
  {
    FilterConcat(GapBefore(p.startOffset, cursor), [PartitionSegment(p, done + 1)], IsPartition);
    FilterConcat(GapBefore(p.startOffset, cursor), [PartitionSegment(p, done + 1)], IsFree);
  }

  /** Slices next to each other: never two gaps, and of two partitions the second has the next number. */
  predicate MayFollow(s: Segment, t: Segment) {
    match (s.index, t.index)
    case (None, None) => false
    case (Some(i), Some(j)) => j == i + 1
    case _ => true
  }

  lemma {:induction false} FirstSlice(ps: seq<Partition>, done: nat, cursor: u64, size: u64)
    ensures var segs := Sweep(ps, done, cursor, size);
            segs != [] && IsPartition(segs[0]) ==> segs[0].index == Some(done + 1)
  {
  }

  lemma {:induction false} NeighboursInSweep(ps: seq<Partition>, done: nat, cursor: u64, size: u64, k: nat)
    requires k + 1 < |Sweep(ps, done, cursor, size)|
    ensures MayFollow(Sweep(ps, done, cursor, size)[k], Sweep(ps, done, cursor, size)[k + 1])
  {
    if ps != [] {
      var next := MaxU64(cursor, End(ps[0]));
      var step, rest := Step(ps[0], done, cursor), Sweep(ps[1..], done + 1, next, size);
      assert Sweep(ps, done, cursor, size) == step + rest;
      FirstSlice(ps[1..], done + 1, next, size);
      if k >= |step| {
        NeighboursInSweep(ps[1..], done + 1, next, size, k - |step|);
      }
    }
  }

  /** No gap follows a gap, and no partition another than the one numbered just before it. */
  lemma {:induction false} NeighboursAlternate(disk: PhysicalDisk, k: nat)
    requires k + 1 < |Slices(disk)|
    ensures MayFollow(Slices(disk)[k], Slices(disk)[k + 1])
  {
    NeighboursInSweep(OnDiskOrder(disk), 0, 0, disk.sizeBytes, k);
  }

  // ----- free space is exactly what no partition covers -----

  predicate Spans(p: Partition, b: int) {
    p.startOffset <= b < p.startOffset + p.sizeBytes && b < U64_MAX
  }

  predicate Covered(ps: seq<Partition>, b: int) {
    exists k :: 0 <= k < |ps| && Spans(ps[k], b)
  }

  /** The larger of the device size and every partition end. */
  function Extent(ps: seq<Partition>, size: u64): u64 {
    if ps == [] then size else MaxU64(End(ps[0]), Extent(ps[1..], size))
  }

  /** A slice with the byte offset it starts at: a gap starts at the cursor, a partition
      where it says. */
  datatype Placed = Placed(at: u64, seg: Segment)

  ghost function GapPlace(start: u64, cursor: u64): seq<Placed> {
    if start > cursor then [Placed(cursor, FreeSegment(start - cursor))] else []
  }

  ghost function PlacedStep(p: Partition, done: nat, cursor: u64): seq<Placed> {
    GapPlace(p.startOffset, cursor) + [Placed(p.startOffset, PartitionSegment(p, done + 1))]
  }

  ghost function Places(ps: seq<Partition>, done: nat, cursor: u64, size: u64): seq<Placed> {
    if ps == [] then GapPlace(size, cursor)
    else PlacedStep(ps[0], done, cursor) + Places(ps[1..], done + 1, MaxU64(cursor, End(ps[0])), size)
  }

  /** The slices of a disk with their places. */
  ghost function Layout(disk: PhysicalDisk): seq<Placed> {
    Places(OnDiskOrder(disk), 0, 0, disk.sizeBytes)
  }

  ghost predicate Carries(placed: seq<Placed>, segs: seq<Segment>) {
    |placed| == |segs| && forall k :: 0 <= k < |segs| ==> placed[k].seg == segs[k]
  }

  lemma {:induction false} CarriesConcat(a: seq<Placed>, x: seq<Segment>, b: seq<Placed>, y: seq<Segment>)
    requires Carries(a, x) && Carries(b, y)
    ensures Carries(a + b, x + y)
  {
  }

  lemma {:induction false} PlacesCarry(ps: seq<Partition>, done: nat, cursor: u64, size: u64)
    ensures Carries(Places(ps, done, cursor, size), Sweep(ps, done, cursor, size))
  {
    if ps == [] {
    } else {
      var p, next := ps[0], MaxU64(cursor, End(ps[0]));
      PlacesCarry(ps[1..], done + 1, next, size);
      CarriesConcat(PlacedStep(p, done, cursor), Step(p, done, cursor),
                    Places(ps[1..], done + 1, next, size), Sweep(ps[1..], done + 1, next, size));
    }
  }

  predicate StartsBelow(lo: u64, s: Placed) {
    lo <= s.at
  }

  /** Slices never start before their predecessor starts, nor before a gap in front of them ends. */
  predicate Precedes(s: Placed, t: Placed) {
    s.at <= t.at && (IsFree(s.seg) ==> s.at + s.seg.sizeBytes <= t.at)
  }

  ghost predicate RunsForward(placed: seq<Placed>) {
    forall i, j :: 0 <= i < j < |placed| ==> Precedes(placed[i], placed[j])
  }

  lemma {:induction false} PlacesStartAbove(ps: seq<Partition>, done: nat, cursor: u64, size: u64, lo: u64)
    requires lo <= cursor && forall k :: 0 <= k < |ps| ==> lo <= ps[k].startOffset
    ensures forall k :: 0 <= k < |Places(ps, done, cursor, size)| ==> StartsBelow(lo, Places(ps, done, cursor, size)[k])
  {
    if ps != [] {
      PlacesStartAbove(ps[1..], done + 1, MaxU64(cursor, End(ps[0])), size, lo);
    }
  }

  lemma {:induction false} PlacesRunForward(ps: seq<Partition>, done: nat, cursor: u64, size: u64)
    requires Sorted(ps, StartsNoLater)
    ensures RunsForward(Places(ps, done, cursor, size))
  {
    if ps != [] {
      var p, next := ps[0], MaxU64(cursor, End(ps[0]));
      PlacesRunForward(ps[1..], done + 1, next, size);
      forall k | 0 <= k < |ps| - 1 ensures p.startOffset <= ps[1..][k].startOffset {
        assert StartsNoLater(ps[0], ps[k + 1]);
      }
      PlacesStartAbove(ps[1..], done + 1, next, size, p.startOffset);
      RunsForwardConcat(PlacedStep(p, done, cursor), Places(ps[1..], done + 1, next, size), p.startOffset);
    }
  }

  lemma {:induction false} RunsForwardConcat(step: seq<Placed>, rest: seq<Placed>, lo: u64)
    requires RunsForward(step) && RunsForward(rest)
    requires forall k :: 0 <= k < |rest| ==> StartsBelow(lo, rest[k])
    requires forall k :: 0 <= k < |step| ==>
      step[k].at <= lo && (IsFree(step[k].seg) ==> step[k].at + step[k].seg.sizeBytes <= lo)
    ensures RunsForward(step + rest)
  {
    forall i, j | 0 <= i < j < |step + rest| ensures Precedes((step + rest)[i], (step + rest)[j]) {
      if i < |step| <= j {
        assert StartsBelow(lo, rest[j - |step|]);
      }
    }
  }

  /** A disk's slices have places, in on-disk order. */
  lemma {:induction false} LayoutIsOrdered(disk: PhysicalDisk)
    ensures Carries(Layout(disk), Slices(disk)) && RunsForward(Layout(disk))
  {
    StartsNoLaterOrders();
    SortSorts(disk.partitions, StartsNoLater);
    PlacesCarry(OnDiskOrder(disk), 0, 0, disk.sizeBytes);
    PlacesRunForward(OnDiskOrder(disk), 0, 0, disk.sizeBytes);
  }

  ghost predicate InFreeSlice(placed: seq<Placed>, b: int) {
    exists k :: 0 <= k < |placed| && HoldsFree(placed[k], b)
  }

  predicate HoldsFree(s: Placed, b: int) {
    IsFree(s.seg) && s.at <= b < s.at + s.seg.sizeBytes
  }

  lemma {:induction false} InFreeSliceConcat(a: seq<Placed>, c: seq<Placed>, b: int)
    ensures InFreeSlice(a + c, b) <==> InFreeSlice(a, b) || InFreeSlice(c, b)
  {
    if k :| 0 <= k < |c| && HoldsFree(c[k], b) {
      assert (a + c)[|a| + k] == c[k];
    }
    if k :| 0 <= k < |a| && HoldsFree(a[k], b) {
      assert (a + c)[k] == a[k];
    }
  }

  lemma {:induction false} CoveredCons(ps: seq<Partition>, b: int)
    requires ps != []
    ensures Covered(ps, b) <==> Spans(ps[0], b) || Covered(ps[1..], b)
  {
    if k :| 0 <= k < |ps[1..]| && Spans(ps[1..][k], b) {
      assert ps[k + 1] == ps[1..][k];
    }
    if k :| 0 <= k < |ps| && Spans(ps[k], b) {
      assert k > 0 ==> ps[1..][k - 1] == ps[k];
    }
  }

  lemma {:induction false} SweepFindsFreeBytes(ps: seq<Partition>, done: nat, cursor: u64, size: u64, b: int)
    requires Sorted(ps, StartsNoLater)
    ensures InFreeSlice(Places(ps, done, cursor, size), b) <==> cursor <= b < Extent(ps, size) && !Covered(ps, b)
  {
    if ps == [] {
      if cursor <= b < size {
        assert HoldsFree(Places(ps, done, cursor, size)[0], b);
      }
    } else {
      var p := ps[0];
      var next := MaxU64(cursor, End(p));
      var gap := GapPlace(p.startOffset, cursor);
      var part := [Placed(p.startOffset, PartitionSegment(p, done + 1))];
      SweepFindsFreeBytes(ps[1..], done + 1, next, size, b);
      InFreeSliceConcat(gap + part, Places(ps[1..], done + 1, next, size), b);
      InFreeSliceConcat(gap, part, b);
      CoveredCons(ps, b);
      assert b < p.startOffset ==> !Covered(ps[1..], b);
      assert InFreeSlice(gap, b) <==> cursor <= b < p.startOffset by {
        assert gap != [] ==> HoldsFree(gap[0], b) == (cursor <= b < p.startOffset);
      }
    }
  }

  /** Overlapping, nested, empty and overlong partitions included: a byte is in a free slice
      exactly if it lies below the extent and no partition covers it. */
  lemma {:induction false} FreeSlicesAreTheGaps(disk: PhysicalDisk, b: int)
    ensures InFreeSlice(Layout(disk), b)
       <==> 0 <= b < Extent(disk.partitions, disk.sizeBytes) && !Covered(disk.partitions, b)
  {
    StartsNoLaterOrders();
    SortSorts(disk.partitions, StartsNoLater);
    SweepFindsFreeBytes(OnDiskOrder(disk), 0, 0, disk.sizeBytes, b);
    SameMembersSameCover(OnDiskOrder(disk), disk.partitions, disk.sizeBytes, b);
  }

  lemma {:induction false} ExtentIsLeast(ps: seq<Partition>, size: u64)
    ensures size <= Extent(ps, size) && forall p :: p in ps ==> End(p) <= Extent(ps, size)
    ensures Extent(ps, size) == size || exists p :: p in ps && Extent(ps, size) == End(p)
  {
    if ps != [] {
      ExtentIsLeast(ps[1..], size);
      assert ps == [ps[0]] + ps[1..];
    }
  }

  lemma {:induction false} SameMembersSameCover(ps: seq<Partition>, qs: seq<Partition>, size: u64, b: int)
    requires multiset(ps) == multiset(qs)
    ensures Covered(ps, b) == Covered(qs, b) && Extent(ps, size) == Extent(qs, size)
  {
    ExtentIsLeast(ps, size);
    ExtentIsLeast(qs, size);
    assert forall p :: p in ps <==> p in multiset(ps);
    assert forall p :: p in qs <==> p in multiset(qs);
    assert Covered(ps, b) <==> exists p :: p in ps && Spans(p, b);
    assert Covered(qs, b) <==> exists p :: p in qs && Spans(p, b);
  }

  /** Another partition starts earlier and reaches up to where p starts, or beyond. */
  predicate Reached(ps: seq<Partition>, p: Partition) {
    exists q :: q in ps && q.startOffset < p.startOffset <= End(q)
  }

  /** No partition starts past the end of the device, unless another leads up to it. */
  predicate NoneDetached(ps: seq<Partition>, size: u64) {
    forall p :: p in ps && p.startOffset > size ==> Reached(ps, p)
  }

  /** A chain of partitions that lead up to one another covers everything from the end of the
      device on. */
  lemma {:induction false} LedUpTo(ps: seq<Partition>, size: u64, p: Partition, b: int)
    requires NoneDetached(ps, size) && p in ps && size <= b < p.startOffset
    ensures Covered(ps, b)
    decreases p.startOffset
  {
    var q :| q in ps && q.startOffset < p.startOffset <= End(q);
    if q.startOffset <= b {
      var k :| 0 <= k < |ps| && ps[k] == q;
      assert Spans(ps[k], b);
    } else {
      LedUpTo(ps, size, q, b);
    }
  }

  lemma {:induction false} CoveredPastTheEnd(ps: seq<Partition>, size: u64, b: int)
    requires NoneDetached(ps, size) && size <= b < Extent(ps, size)
    ensures Covered(ps, b)
  {
    ExtentIsLeast(ps, size);
    var p :| p in ps && Extent(ps, size) == End(p);
    if p.startOffset <= b {
      var k :| 0 <= k < |ps| && ps[k] == p;
      assert Spans(ps[k], b);
    } else {
      LedUpTo(ps, size, p, b);
    }
  }

  /** Free slices lie on the device exactly if no partition is detached from it. */
  lemma {:induction false} FreeStaysOnDevice(disk: PhysicalDisk)
    ensures (forall b :: disk.sizeBytes <= b ==> !InFreeSlice(Layout(disk), b))
       <==> NoneDetached(disk.partitions, disk.sizeBytes)
  {
    var ps, size := disk.partitions, disk.sizeBytes;
    if forall b :: size <= b ==> !InFreeSlice(Layout(disk), b) {
      ExtentIsLeast(ps, size);
      forall p | p in ps && p.startOffset > size ensures Reached(ps, p) {
        var b := p.startOffset - 1;
        FreeSlicesAreTheGaps(disk, b);
        assert !InFreeSlice(Layout(disk), b);
        var k :| 0 <= k < |ps| && Spans(ps[k], b);
        assert ps[k] in ps;
      }
    }
    if NoneDetached(ps, size) {
      forall b | size <= b ensures !InFreeSlice(Layout(disk), b) {
        FreeSlicesAreTheGaps(disk, b);
        if b < Extent(ps, size) {
          CoveredPastTheEnd(ps, size, b);
        }
      }
    }
  }

  /** It can fail: a partition at byte 20 of a disk of 10 bytes leaves byte 15 in a free slice. */
  lemma {:induction false} FreePastTheEnd(disk: PhysicalDisk, p: Partition)
    requires disk.sizeBytes == 10 && disk.partitions == [p] && p.startOffset == 20
    ensures InFreeSlice(Layout(disk), 15)
    ensures !NoneDetached(disk.partitions, disk.sizeBytes)
  {
    FreeSlicesAreTheGaps(disk, 15);
    ExtentIsLeast(disk.partitions, 10);
    assert p in disk.partitions;
    FreeStaysOnDevice(disk);
  }

  // ----- sizes -----

  /** How many offsets in [lo, hi) no partition covers. */
  ghost function FreeBytes(ps: seq<Partition>, lo: int, hi: int): nat
    decreases hi - lo
  {
    if lo >= hi then 0 else FreeBytes(ps, lo, hi - 1) + (if Covered(ps, hi - 1) then 0 else 1)
  }

  lemma {:induction false} FreeBytesSplit(ps: seq<Partition>, lo: int, mid: int, hi: int)
    requires lo <= mid <= hi
    ensures FreeBytes(ps, lo, hi) == FreeBytes(ps, lo, mid) + FreeBytes(ps, mid, hi)
    decreases hi - mid
  {
    if mid < hi {
      FreeBytesSplit(ps, lo, mid, hi - 1);
    }
  }

  lemma {:induction false} FreeBytesAll(ps: seq<Partition>, lo: int, hi: int)
    requires lo <= hi && forall b :: lo <= b < hi ==> !Covered(ps, b)
    ensures FreeBytes(ps, lo, hi) == hi - lo
    decreases hi - lo
  {
    if lo < hi {
      FreeBytesAll(ps, lo, hi - 1);
    }
  }

  lemma {:induction false} FreeBytesNone(ps: seq<Partition>, lo: int, hi: int)
    requires forall b :: lo <= b < hi ==> Covered(ps, b)
    ensures FreeBytes(ps, lo, hi) == 0
    decreases hi - lo
  {
    if lo < hi {
      FreeBytesNone(ps, lo, hi - 1);
    }
  }

  lemma {:induction false} FreeBytesAgree(ps: seq<Partition>, qs: seq<Partition>, lo: int, hi: int)
    requires forall b :: lo <= b < hi ==> Covered(ps, b) == Covered(qs, b)
    ensures FreeBytes(ps, lo, hi) == FreeBytes(qs, lo, hi)
    decreases hi - lo
  {
    if lo < hi {
      FreeBytesAgree(ps, qs, lo, hi - 1);
    }
  }

  function Sizes(segs: seq<Segment>): (r: seq<u64>)
    ensures |r| == |segs| && forall k :: 0 <= k < |r| ==> r[k] == segs[k].sizeBytes
  {
    seq(|segs|, k requires 0 <= k < |segs| => segs[k].sizeBytes)
  }

  lemma {:induction false} GapSize(start: u64, cursor: u64)
    ensures Sum(Sizes(GapBefore(start, cursor))) == Max(0, start - cursor)
  {
    assert Sizes(GapBefore(start, cursor)) == if start > cursor then [start - cursor] else [];
    SumSnoc([], start - cursor);
    assert [] + [start - cursor] == [start - cursor];
  }

  lemma {:induction false} SweepSizeStep(ps: seq<Partition>, done: nat, cursor: u64, size: u64)
    requires ps != []
    ensures Sum(Sizes(Sweep(ps, done, cursor, size)))
         == Max(0, ps[0].startOffset - cursor) + ps[0].sizeBytes
            + Sum(Sizes(Sweep(ps[1..], done + 1, MaxU64(cursor, End(ps[0])), size)))
  {
    var gap := GapBefore(ps[0].startOffset, cursor);
    var step, rest := Step(ps[0], done, cursor), Sweep(ps[1..], done + 1, MaxU64(cursor, End(ps[0])), size);
    assert Sizes(step + rest) == Sizes(step) + Sizes(rest);
    SumConcat(Sizes(step), Sizes(rest));
    assert Sizes(step) == Sizes(gap) + [ps[0].sizeBytes];
    SumSnoc(Sizes(gap), ps[0].sizeBytes);
    GapSize(ps[0].startOffset, cursor);
  }

  function PartitionBytes(ps: seq<Partition>): nat {
    if ps == [] then 0 else ps[0].sizeBytes + PartitionBytes(ps[1..])
  }

  /** The part of a step of the sweep that concerns one partition. */
  lemma {:induction false} FreeBytesStep(ps: seq<Partition>, cursor: u64, hi: u64)
    requires Sorted(ps, StartsNoLater) && ps != [] && hi >= MaxU64(cursor, End(ps[0]))
    ensures var next := MaxU64(cursor, End(ps[0]));
            FreeBytes(ps, cursor, hi) == Max(0, ps[0].startOffset - cursor) + FreeBytes(ps[1..], next, hi)
  {
    var p := ps[0];
    var next := MaxU64(cursor, End(p));
    var from := MaxU64(cursor, p.startOffset);
    forall b ensures Covered(ps, b) <==> Spans(p, b) || Covered(ps[1..], b) {
      CoveredCons(ps, b);
    }
    assert from <= next;
    FreeBytesSplit(ps, cursor, from, hi);
    FreeBytesSplit(ps, from, next, hi);
    FreeBytesAll(ps, cursor, from);
    FreeBytesNone(ps, from, next);
    FreeBytesAgree(ps, ps[1..], next, hi);
  }

  lemma {:induction false} SweepSize(ps: seq<Partition>, done: nat, cursor: u64, size: u64)
    requires Sorted(ps, StartsNoLater)
    ensures Sum(Sizes(Sweep(ps, done, cursor, size)))
         == FreeBytes(ps, cursor, Extent(ps, size)) + PartitionBytes(ps)
  {
    if ps == [] {
      GapSize(size, cursor);
      if cursor < size {
        FreeBytesAll(ps, cursor, size);
      }
    } else {
      var p := ps[0];
      var next := MaxU64(cursor, End(p));
      SweepSize(ps[1..], done + 1, next, size);
      SweepSizeStep(ps, done, cursor, size);
      var hi := MaxU64(next, Extent(ps, size));
      FreeBytesStep(ps, cursor, hi);
      assert hi > Extent(ps, size) ==> hi == cursor;
      assert Extent(ps[1..], size) < hi ==> hi == next;
    }
  }

  /** There is anything to draw: bytes on the device, or in a partition, or in front of one. */
  predicate HasBytes(disk: PhysicalDisk) {
    disk.sizeBytes > 0 || exists p :: p in disk.partitions && (p.startOffset > 0 || p.sizeBytes > 0)
  }

  predicate AddsNothing(ps: seq<Partition>, cursor: u64) {
    forall k :: 0 <= k < |ps| ==> ps[k].startOffset <= cursor && ps[k].sizeBytes == 0
  }

  lemma {:induction false} SweepHasBytes(ps: seq<Partition>, done: nat, cursor: u64, size: u64)
    ensures var total := Sum(Sizes(Sweep(ps, done, cursor, size)));
            total >= 0 && (total == 0 <==> size <= cursor && AddsNothing(ps, cursor))
  {
    if ps == [] {
      GapSize(size, cursor);
    } else {
      var next := MaxU64(cursor, End(ps[0]));
      SweepHasBytes(ps[1..], done + 1, next, size);
      SweepSizeStep(ps, done, cursor, size);
      assert AddsNothing(ps, cursor)
        <==> ps[0].startOffset <= cursor && ps[0].sizeBytes == 0 && AddsNothing(ps[1..], cursor) by {
        assert forall k :: 0 < k < |ps| ==> ps[k] == ps[1..][k - 1];
      }
    }
  }

  lemma {:induction false} AddsNothingPermutes(ps: seq<Partition>, qs: seq<Partition>, cursor: u64)
    requires multiset(ps) == multiset(qs)
    ensures AddsNothing(qs, cursor) <==> forall p :: p in ps ==> p.startOffset <= cursor && p.sizeBytes == 0
  {
    if AddsNothing(qs, cursor) {
      forall p | p in ps ensures p.startOffset <= cursor && p.sizeBytes == 0 {
        var i :| 0 <= i < |ps| && ps[i] == p;
        var k := PlaceIn(ps, qs, i);
      }
    }
    if forall p :: p in ps ==> p.startOffset <= cursor && p.sizeBytes == 0 {
      forall k | 0 <= k < |qs| ensures qs[k].startOffset <= cursor && qs[k].sizeBytes == 0 {
        var i := PlaceIn(qs, ps, k);
      }
    }
  }

  /** Some slice of a disk is not empty exactly if there is anything to draw. */
  lemma {:induction false} SlicesHaveBytes(disk: PhysicalDisk)
    ensures Sum(Sizes(Slices(disk))) > 0 <==> HasBytes(disk)
    ensures (exists k :: 0 <= k < |Slices(disk)| && Slices(disk)[k].sizeBytes > 0) <==> HasBytes(disk)
  {
    SweepHasBytes(OnDiskOrder(disk), 0, 0, disk.sizeBytes);
    SumPositive(Sizes(Slices(disk)));
    AddsNothingPermutes(disk.partitions, OnDiskOrder(disk), 0);
  }

  /** How many offsets below n some partition covers: the size of their union. */
  ghost function CoveredBytes(ps: seq<Partition>, n: nat): nat {
    if n == 0 then 0 else CoveredBytes(ps, n - 1) + (if Covered(ps, n - 1) then 1 else 0)
  }

  lemma {:induction false} FreeAndCovered(ps: seq<Partition>, n: nat)
    ensures FreeBytes(ps, 0, n) + CoveredBytes(ps, n) == n
  {
    if n > 0 {
      FreeAndCovered(ps, n - 1);
    }
  }

  lemma {:induction false} PartitionBytesOfPermutation(ps: seq<Partition>, qs: seq<Partition>)
    requires multiset(ps) == multiset(qs)
    ensures PartitionBytes(ps) == PartitionBytes(qs)
  {
    if ps == [] {
      assert |multiset(qs)| == 0;
    } else {
      assert ps[0] in multiset(qs);
      var k :| 0 <= k < |qs| && qs[k] == ps[0];
      RemoveSame(ps, qs, k);
      PartitionBytesOfPermutation(ps[1..], qs[..k] + qs[k + 1..]);
      PartitionBytesRemove(qs, k);
    }
  }

  lemma {:induction false} PartitionBytesRemove(qs: seq<Partition>, k: nat)
    requires k < |qs|
    ensures PartitionBytes(qs) == qs[k].sizeBytes + PartitionBytes(qs[..k] + qs[k + 1..])
  {
    if k == 0 {
      assert qs[..0] + qs[1..] == qs[1..];
    } else {
      PartitionBytesRemove(qs[1..], k - 1);
      var r := qs[..k] + qs[k + 1..];
      assert r[1..] == qs[1..][..k - 1] + qs[1..][k..];
    }
  }

  /** The slices of any disk add up to its extent, plus whatever its partitions claim more
      than once or beyond the last addressable byte. */
  lemma {:induction false} SegmentSizesAddUp(disk: PhysicalDisk)
    ensures var n := Extent(disk.partitions, disk.sizeBytes);
            Sum(Sizes(Slices(disk))) == n + PartitionBytes(disk.partitions) - CoveredBytes(disk.partitions, n)
  {
    var sorted, ps := OnDiskOrder(disk), disk.partitions;
    StartsNoLaterOrders();
    SortSorts(ps, StartsNoLater);
    SweepSize(sorted, 0, 0, disk.sizeBytes);
    forall b ensures Covered(sorted, b) == Covered(ps, b) {
      SameMembersSameCover(sorted, ps, disk.sizeBytes, b);
    }
    var n := Extent(ps, disk.sizeBytes);
    assert Extent(sorted, disk.sizeBytes) == n by {
      SameMembersSameCover(sorted, ps, disk.sizeBytes, 0);
    }
    FreeBytesAgree(sorted, ps, 0, n);
    FreeAndCovered(ps, n);
    PartitionBytesOfPermutation(sorted, ps);
  }

  /** No two partitions share a byte. */
  ghost predicate Disjoint(ps: seq<Partition>) {
    forall i, j, b :: 0 <= i < j < |ps| && Spans(ps[i], b) ==> !Spans(ps[j], b)
  }

  predicate Fits(ps: seq<Partition>, size: u64) {
    forall k :: 0 <= k < |ps| ==> ps[k].startOffset + ps[k].sizeBytes <= size
  }

  predicate ClearOf(ps: seq<Partition>, cursor: u64) {
    forall k :: 0 <= k < |ps| ==> ps[k].sizeBytes == 0 || cursor <= ps[k].startOffset
  }

  lemma {:induction false} DisjointCons(ps: seq<Partition>, size: u64)
    requires Sorted(ps, StartsNoLater) && Fits(ps, size) && ps != []
    ensures Disjoint(ps) <==> Disjoint(ps[1..]) && ClearOf(ps[1..], End(ps[0]))
  {
    var p, rest := ps[0], ps[1..];
    assert forall k :: 0 <= k < |rest| ==> rest[k] == ps[k + 1];
    if Disjoint(ps) {
      forall k | 0 <= k < |rest| && rest[k].sizeBytes > 0 ensures End(p) <= rest[k].startOffset {
        assert StartsNoLater(ps[0], ps[k + 1]);
        assert Spans(ps[k + 1], rest[k].startOffset);
        assert !Spans(ps[0], rest[k].startOffset);
      }
      forall i, j, b | 0 <= i < j < |rest| && Spans(rest[i], b) ensures !Spans(rest[j], b) {
        assert Spans(ps[i + 1], b);
      }
    }
    if Disjoint(rest) && ClearOf(rest, End(p)) {
      forall i, j, b | 0 <= i < j < |ps| && Spans(ps[i], b) ensures !Spans(ps[j], b) {
        assert ps[j] == rest[j - 1];
        if i > 0 {
          assert Spans(rest[i - 1], b);
        }
      }
    }
  }

  lemma {:induction false} SweepTiles(ps: seq<Partition>, done: nat, cursor: u64, size: u64)
    requires Sorted(ps, StartsNoLater)
    ensures var total := Sum(Sizes(Sweep(ps, done, cursor, size)));
            && total >= size - cursor
            && (total == size - cursor
                <==> cursor <= size && Fits(ps, size) && Disjoint(ps) && ClearOf(ps, cursor))
  {
    if ps == [] {
      GapSize(size, cursor);
    } else {
      var p := ps[0];
      var next := MaxU64(cursor, End(p));
      SweepTiles(ps[1..], done + 1, next, size);
      SweepSizeStep(ps, done, cursor, size);
      assert Fits(ps, size) <==> p.startOffset + p.sizeBytes <= size && Fits(ps[1..], size) by {
        assert forall k :: 0 < k < |ps| ==> ps[k] == ps[1..][k - 1];
      }
      assert ClearOf(ps, cursor) <==> (p.sizeBytes == 0 || cursor <= p.startOffset) && ClearOf(ps[1..], cursor) by {
        assert forall k :: 0 < k < |ps| ==> ps[k] == ps[1..][k - 1];
      }
      if Fits(ps, size) {
        DisjointCons(ps, size);
      }
    }
  }

  lemma {:induction false} PermutedStayApart(ps: seq<Partition>, qs: seq<Partition>, size: u64)
    requires multiset(ps) == multiset(qs) && Fits(ps, size) && Disjoint(ps)
    ensures Fits(qs, size) && Disjoint(qs)
  {
    forall k | 0 <= k < |qs| ensures qs[k].startOffset + qs[k].sizeBytes <= size {
      var p := PlaceIn(qs, ps, k);
    }
    forall i, j, b | 0 <= i < j < |qs| && Spans(qs[i], b) ensures !Spans(qs[j], b) {
      var p, q := PairInPermutation(qs, ps, i, j);
      var x, y := ps[p], ps[q];
      assert !(Spans(x, b) && Spans(y, b));
    }
  }

  /** The slices of a disk add up to its size exactly if its partitions lie inside it and
      no two of them share a byte. */
  lemma {:induction false} SegmentsTileTheDisk(disk: PhysicalDisk)
    ensures Sum(Sizes(Slices(disk))) >= disk.sizeBytes
    ensures Sum(Sizes(Slices(disk))) == disk.sizeBytes
       <==> Fits(disk.partitions, disk.sizeBytes) && Disjoint(disk.partitions)
  {
    StartsNoLaterOrders();
    SortSorts(disk.partitions, StartsNoLater);
    SweepTiles(OnDiskOrder(disk), 0, 0, disk.sizeBytes);
    if Fits(disk.partitions, disk.sizeBytes) && Disjoint(disk.partitions) {
      PermutedStayApart(disk.partitions, OnDiskOrder(disk), disk.sizeBytes);
    }
    if Fits(OnDiskOrder(disk), disk.sizeBytes) && Disjoint(OnDiskOrder(disk)) {
      PermutedStayApart(OnDiskOrder(disk), disk.partitions, disk.sizeBytes);
    }
  }

  // ----- the gaps do not depend on the order partitions are listed in -----

  /** The gaps among the rest of the partitions. */
  function Gaps(ps: seq<Partition>, cursor: u64, size: u64): seq<Segment> {
    if ps == [] then GapBefore(size, cursor)
    else GapBefore(ps[0].startOffset, cursor) + Gaps(ps[1..], MaxU64(cursor, End(ps[0])), size)
  }

  lemma {:induction false} FreeSlicesAreGaps(ps: seq<Partition>, done: nat, cursor: u64, size: u64)
    ensures Filter(Sweep(ps, done, cursor, size), IsFree) == Gaps(ps, cursor, size)
  {
    if ps == [] {
    } else {
      var next := MaxU64(cursor, End(ps[0]));
      FreeSlicesAreGaps(ps[1..], done + 1, next, size);
      FilterConcat(Step(ps[0], done, cursor), Sweep(ps[1..], done + 1, next, size), IsFree);
      StepFilters(ps[0], done, cursor);
    }
  }

  lemma {:induction false} GapsCons(p: Partition, ps: seq<Partition>, cursor: u64, size: u64)
    ensures Gaps([p] + ps, cursor, size) == GapBefore(p.startOffset, cursor) + Gaps(ps, MaxU64(cursor, End(p)), size)
  {
    assert ([p] + ps)[1..] == ps;
  }

  lemma {:induction false} GapsSwap(p: Partition, q: Partition, ps: seq<Partition>, cursor: u64, size: u64)
    requires p.startOffset == q.startOffset
    ensures Gaps([p] + ([q] + ps), cursor, size) == Gaps([q] + ([p] + ps), cursor, size)
  {
    GapsCons(p, [q] + ps, cursor, size);
    GapsCons(q, [p] + ps, cursor, size);
    GapsCons(q, ps, MaxU64(cursor, End(p)), size);
    GapsCons(p, ps, MaxU64(cursor, End(q)), size);
  }

  /** A partition may move to the front past others that start where it does. */
  lemma {:induction false} GapsMoveToFront(ps: seq<Partition>, k: nat, cursor: u64, size: u64)
    requires k < |ps| && forall i :: 0 <= i < k ==> ps[i].startOffset == ps[k].startOffset
    ensures Gaps(ps, cursor, size) == Gaps([ps[k]] + (ps[..k] + ps[k + 1..]), cursor, size)
  {
    if k == 0 {
      assert [ps[0]] + (ps[..0] + ps[1..]) == ps;
    } else {
      var p, q, tail := ps[k], ps[0], ps[1..];
      var rest := tail[..k - 1] + tail[k..];
      GapsMoveToFront(tail, k - 1, MaxU64(cursor, End(q)), size);
      GapsCons(q, tail, cursor, size);
      GapsCons(q, [p] + rest, cursor, size);
      GapsSwap(q, p, rest, cursor, size);
      assert ps == [q] + tail;
      assert ps[..k] + ps[k + 1..] == [q] + rest;
    }
  }

  lemma {:induction false} FirstStartsTie(ps: seq<Partition>, qs: seq<Partition>, k: nat)
    requires Sorted(ps, StartsNoLater) && Sorted(qs, StartsNoLater)
    requires multiset(ps) == multiset(qs) && ps != [] && k < |qs| && qs[k] == ps[0]
    ensures forall i :: 0 <= i < k ==> qs[i].startOffset == qs[k].startOffset
  {
    forall i | 0 <= i < k ensures qs[i].startOffset == qs[k].startOffset {
      assert qs[i] in multiset(ps);
      var j :| 0 <= j < |ps| && ps[j] == qs[i];
      assert j > 0 ==> StartsNoLater(ps[0], ps[j]);
      assert StartsNoLater(qs[i], qs[k]);
    }
  }

  lemma {:induction false} GapsOfPermutation(ps: seq<Partition>, qs: seq<Partition>, cursor: u64, size: u64)
    requires Sorted(ps, StartsNoLater) && Sorted(qs, StartsNoLater)
    requires multiset(ps) == multiset(qs)
    ensures Gaps(ps, cursor, size) == Gaps(qs, cursor, size)
  {
    if ps == [] {
      assert |multiset(qs)| == 0;
    } else {
      assert ps[0] in multiset(qs);
      var k :| 0 <= k < |qs| && qs[k] == ps[0];
      var rest := qs[..k] + qs[k + 1..];
      FirstStartsTie(ps, qs, k);
      GapsMoveToFront(qs, k, cursor, size);
      GapsCons(ps[0], rest, cursor, size);
      RemoveSame(ps, qs, k);
      GapsOfPermutation(ps[1..], rest, MaxU64(cursor, End(ps[0])), size);
    }
  }

  /** Listing the same partitions in another order draws the same gaps in the same order. */
  lemma {:induction false} GapsIgnoreListingOrder(disk: PhysicalDisk, other: PhysicalDisk)
    requires multiset(disk.partitions) == multiset(other.partitions) && disk.sizeBytes == other.sizeBytes
    ensures Filter(Slices(disk), IsFree) == Filter(Slices(other), IsFree)
  {
    StartsNoLaterOrders();
    SortSorts(disk.partitions, StartsNoLater);
    SortSorts(other.partitions, StartsNoLater);
    FreeSlicesAreGaps(OnDiskOrder(disk), 0, 0, disk.sizeBytes);
    FreeSlicesAreGaps(OnDiskOrder(other), 0, 0, other.sizeBytes);
    GapsOfPermutation(OnDiskOrder(disk), OnDiskOrder(other), 0, disk.sizeBytes);
  }

  /** If no two different partitions start at the same byte, listing them in another order
      draws the very same slices. */
  lemma {:induction false} SlicesIgnoreListingOrder(disk: PhysicalDisk, other: PhysicalDisk)
    requires multiset(disk.partitions) == multiset(other.partitions) && disk.sizeBytes == other.sizeBytes
    requires forall p, q :: p in disk.partitions && q in disk.partitions && p.startOffset == q.startOffset ==> p == q
    ensures Slices(disk) == Slices(other)
  {
    StartsNoLaterOrders();
    SortIgnoresOrder(disk.partitions, other.partitions, StartsNoLater);
  }

  /** The slice is that of partition number i: it has its size, and a label of its name and of
      its type, or of a dash if it has none. */
  predicate DrawsPartition(s: Segment, p: Partition, i: nat) {
    && s.index == Some(i) && s.sizeBytes == p.sizeBytes
    && s.text == PartitionLabel(p.name, match p.partitionType case Some(t) => t case None => "-")
  }

  /** Slice number i draws the i-th partition in on-disk order. */
  lemma {:induction false} SliceDrawsPartition(disk: PhysicalDisk, i: nat)
    requires 1 <= i <= |disk.partitions|
    ensures var parts := Filter(Slices(disk), IsPartition);
            |parts| == |disk.partitions| && DrawsPartition(parts[i - 1], OnDiskOrder(disk)[i - 1], i)
  {
    PartitionsInOrder(OnDiskOrder(disk), 0, 0, disk.sizeBytes);
  }

  /** Partitions already listed in on-disk order are drawn in the order listed, so that
      slice number i is partitions[i - 1]. */
  lemma {:induction false} ListedOrderIsLegendOrder(disk: PhysicalDisk, i: nat)
    requires Sorted(disk.partitions, StartsNoLater) && 1 <= i <= |disk.partitions|
    ensures var parts := Filter(Slices(disk), IsPartition);
            |parts| == |disk.partitions| && DrawsPartition(parts[i - 1], disk.partitions[i - 1], i)
  {
    SortedIsFixed(disk.partitions, StartsNoLater);
    SliceDrawsPartition(disk, i);
  }
}
