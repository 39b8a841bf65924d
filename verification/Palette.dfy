/** `partition_slots` (core/src/bar.rs): which palette entry each partition is drawn in. */
module Palette {
  import opened Machine
  import opened Sorting
  import opened Segments

  const PALETTE: seq<nat> := [39, 208, 46, 201, 226, 51, 129, 214]
  const GLYPHS: seq<char> := ['#', '=', '+', '*', 'o', '~', 'x', '%']
  const PALETTE_SIZE: nat := 8

  function Parts(segs: seq<Segment>): seq<Segment> {
    Filter(segs, IsPartition)
  }

  /** The partition slices carry the numbers 1, 2, 3 and so on. */
  predicate Numbered(segs: seq<Segment>) {
    forall k :: 0 <= k < |Parts(segs)| ==> Parts(segs)[k].index == Some(k + 1)
  }

  /** `max_by_key` by size: the number of the largest partition, the last of them on a tie;
      0 if there is none. */
  function Largest(parts: seq<Segment>): (n: nat)
    ensures parts == [] <==> n == 0
    ensures n <= |parts|
    ensures forall k :: 0 <= k < |parts| ==> parts[k].sizeBytes <= parts[n - 1].sizeBytes
    ensures forall k :: n <= k < |parts| ==> parts[k].sizeBytes < parts[n - 1].sizeBytes
  {
    if parts == [] then 0
    else
      var last := |parts| - 1;
      var n := Largest(parts[..last]);
      if n == 0 || parts[last].sizeBytes >= parts[n - 1].sizeBytes then |parts| else n
  }

  /** The r-th (from 0) entry of the palette without `accent`, over and over. */
  function OtherSlot(r: nat, accent: nat): nat
    requires accent < PALETTE_SIZE
  {
    var m := r % (PALETTE_SIZE - 1);
    if m < accent then m else m + 1
  }

  /** How many partitions other than the largest come before number i. */
  function Rank(i: nat, largest: nat): nat
    requires i >= 1 && i != largest
  {
    if largest == 0 || i < largest then i - 1 else i - 2
  }

  /** The palette slot of partition number i. */
  function SlotOf(i: nat, largest: nat, accent: nat): nat
    requires i >= 1 && accent < PALETTE_SIZE
  {
    if i == largest then accent else OtherSlot(Rank(i, largest), accent)
  }

  /** How many of the first k partitions are not the largest. */
  ghost function OthersAmong(k: nat, largest: nat): nat {
    if largest == 0 || k < largest then k else k - 1
  }

  function SkipAccent(c: nat, accent: nat): nat {
    if c % PALETTE_SIZE == accent then c + 1 else c
  }

  /** Where the running counter stands after it has served r partitions. */
  ghost function CounterAfter(r: nat, accent: nat): nat {
    if r == 0 then 0 else SkipAccent(CounterAfter(r - 1, accent), accent) + 1
  }

  lemma {:induction false} ModEight(d: nat, x: nat)
    requires x < 8
    ensures (8 * d + x) % 8 == x
  {
  }

  lemma {:induction false} SkipAt(d: nat, x: nat, accent: nat)
    requires x < 8
    ensures SkipAccent(8 * d + x, accent) == 8 * d + (if x == accent then x + 1 else x)
  {
    ModEight(d, x);
  }

  lemma {:induction false} CounterClosed(d: nat, m: nat, accent: nat)
    requires m < 7 && accent < PALETTE_SIZE
    ensures SkipAccent(CounterAfter(7 * d + m, accent), accent) == 8 * d + (if m < accent then m else m + 1)
    decreases d, m
  {
    if m > 0 {
      CounterClosed(d, m - 1, accent);
      SkipAt(d, if m - 1 < accent then m else m + 1, accent);
    } else if d > 0 {
      CounterClosed(d - 1, 6, accent);
      SkipAt(d - 1, 7, accent);
      SkipAt(d, 0, accent);
    } else {
      SkipAt(0, 0, accent);
    }
  }

  lemma {:induction false} CounterServesOthers(r: nat, accent: nat)
    requires accent < PALETTE_SIZE
    ensures SkipAccent(CounterAfter(r, accent), accent) % PALETTE_SIZE == OtherSlot(r, accent)
    ensures SkipAccent(CounterAfter(r, accent), accent) % 8
         == ([0, 1, 2, 3, 4, 5, 6, 7][..accent] + [0, 1, 2, 3, 4, 5, 6, 7][accent + 1..])[r % 7]
  {
    CounterClosed(r / 7, r % 7, accent);
    ModEight(r / 7, OtherSlot(r, accent));
    OthersInOrder(r, accent);
  }

  lemma {:induction false} WithoutAt(accent: nat, m: nat)
    requires accent < 8 && m < 7
    ensures ([0, 1, 2, 3, 4, 5, 6, 7][..accent] + [0, 1, 2, 3, 4, 5, 6, 7][accent + 1..])[m]
         == if m < accent then m else m + 1
  {
    var all := [0, 1, 2, 3, 4, 5, 6, 7];
    assert forall x :: 0 <= x < 8 ==> all[x] == x;
  }

  /** The entries besides the accent, in order and over and over. */
  lemma {:induction false} OthersInOrder(r: nat, accent: nat)
    requires accent < PALETTE_SIZE
    ensures OtherSlot(r, accent)
         == ([0, 1, 2, 3, 4, 5, 6, 7][..accent] + [0, 1, 2, 3, 4, 5, 6, 7][accent + 1..])[r % 7]
  {
    WithoutAt(accent, r % 7);
  }

  predicate IsOther(j: nat, largest: nat) {
    j != largest
  }

  /** The numbers before i that are not the largest's. */
  ghost function OthersBefore(i: nat, largest: nat): (others: set<nat>)
    ensures forall j: nat :: j in others <==> 1 <= j < i && j != largest
  {
    set j: nat | 1 <= j < i && IsOther(j, largest)
  }

  lemma {:induction false} OthersGrow(i: nat, largest: nat)
    requires i >= 1
    ensures |OthersBefore(i + 1, largest)| == |OthersBefore(i, largest)| + (if i == largest then 0 else 1)
  {
    var more := if i == largest then {} else {i};
    assert OthersBefore(i + 1, largest) == OthersBefore(i, largest) + more;
  }

  lemma {:induction false} OthersCounted(i: nat, largest: nat)
    requires i >= 1
    ensures |OthersBefore(i, largest)| == OthersAmong(i - 1, largest)
  {
    if i == 1 {
      assert OthersBefore(1, largest) == {};
    } else {
      OthersCounted(i - 1, largest);
      OthersGrow(i - 1, largest);
    }
  }

  /** The next palette entry that is not the accent, and the counter behind it. */
  method TakeSlot(counter: nat, accent: nat) returns (slot: nat, next: nat)
    ensures slot == SkipAccent(counter, accent) % PALETTE_SIZE
    ensures next == SkipAccent(counter, accent) + 1
  {
    next := counter;
    while next % PALETTE_SIZE == accent
      invariant next == counter || (next == counter + 1 && counter % PALETTE_SIZE == accent)
      decreases counter + 1 - next
    {
      next := next + 1;
    }
    slot := next % PALETTE_SIZE;
    next := next + 1;
  }

  /** The table of slots for n partitions; entry 0 is not used. */
  ghost function SlotTable(n: nat, largest: nat, accent: nat): (t: seq<nat>)
    requires accent < PALETTE_SIZE
    ensures |t| == n + 1 && t[0] == 0
  {
    if n == 0 then [0] else SlotTable(n - 1, largest, accent) + [SlotOf(n, largest, accent)]
  }

  lemma {:induction false} SlotTableAt(n: nat, largest: nat, accent: nat, i: nat)
    requires accent < PALETTE_SIZE && 1 <= i <= n
    ensures SlotTable(n, largest, accent)[i] == SlotOf(i, largest, accent)
  {
    if i < n {
      SlotTableAt(n - 1, largest, accent, i);
    }
  }

  method FillSlots(parts: seq<Segment>, largest: nat, accent: nat) returns (slots: seq<nat>)
    requires accent < PALETTE_SIZE
    requires forall k :: 0 <= k < |parts| ==> parts[k].index == Some(k + 1)
    ensures slots == SlotTable(|parts|, largest, accent)
  {
    var row := new nat[|parts| + 1](i => 0);
    var next := 0;
    for k := 0 to |parts|
      invariant next == CounterAfter(OthersAmong(k, largest), accent)
      invariant row[..k + 1] == SlotTable(k, largest, accent)
    {
      var i := parts[k].index.value;
      ghost var done := row[..k + 1];
      if i == largest {
        row[i] := accent;
      } else {
        CounterServesOthers(Rank(i, largest), accent);
        row[i], next := TakeSlot(next, accent);
      }
      assert row[..k + 1] == done;
      assert row[..k + 2] == done + [row[k + 1]];
    }
    slots := row[..];
  }

  method PartitionSlots(segs: seq<Segment>, accent: nat) returns (slots: seq<nat>)
    requires accent < PALETTE_SIZE && Numbered(segs)
    ensures |slots| == |Parts(segs)| + 1 && slots[0] == 0
    ensures forall i :: 1 <= i <= |Parts(segs)| ==> slots[i] == SlotOf(i, Largest(Parts(segs)), accent)
    ensures forall i :: 1 <= i <= |Parts(segs)| ==> SlotIs(i, Largest(Parts(segs)), accent, slots[i])
  {
    var parts := Parts(segs);
    var largest := Largest(parts);
    slots := FillSlots(parts, largest, accent);
    forall i | 1 <= i <= |parts| ensures slots[i] == SlotOf(i, largest, accent) {
      SlotTableAt(|parts|, largest, accent, i);
    }
    forall i | 1 <= i <= |parts| ensures SlotIs(i, largest, accent, slots[i]) {
      SlotsInOrder(i, largest, accent);
    }
  }

  /** The slot is the accent for the largest partition. Any other takes the entries besides the
      accent in order, starting over after seven: it gets the one that as many partitions, other
      than the largest, precede it. */
  ghost predicate SlotIs(i: nat, largest: nat, accent: nat, slot: nat) {
    && accent < 8
    && slot == if i == largest then accent
               else ([0, 1, 2, 3, 4, 5, 6, 7][..accent] + [0, 1, 2, 3, 4, 5, 6, 7][accent + 1..])
                    [|OthersBefore(i, largest)| % 7]
  }

  lemma {:induction false} SlotsInOrder(i: nat, largest: nat, accent: nat)
    requires i >= 1 && accent < PALETTE_SIZE
    ensures SlotIs(i, largest, accent, SlotOf(i, largest, accent))
  {
    if i != largest {
      OthersCounted(i, largest);
      OthersInOrder(Rank(i, largest), accent);
    }
  }

  // ----- colours tell partitions apart -----

  /** Only the largest partition is drawn in the accent. */
  lemma {:induction false} OnlyLargestIsAccent(i: nat, largest: nat, accent: nat)
    requires i >= 1 && accent < PALETTE_SIZE
    ensures SlotOf(i, largest, accent) < PALETTE_SIZE
    ensures SlotOf(i, largest, accent) == accent <==> i == largest
  {
  }

  lemma {:induction false} OtherSlotsCycle(r: nat, s: nat, accent: nat)
    requires accent < PALETTE_SIZE
    ensures OtherSlot(r, accent) == OtherSlot(s, accent) <==> r % 7 == s % 7
  {
  }

  /** Two partitions share a slot exactly if neither is the largest and a multiple of seven
      such partitions lies between them. */
  lemma {:induction false} SharedSlots(i: nat, j: nat, largest: nat, accent: nat)
    requires 1 <= i < j && accent < PALETTE_SIZE
    ensures SlotOf(i, largest, accent) == SlotOf(j, largest, accent)
       <==> i != largest && j != largest && Rank(i, largest) % 7 == Rank(j, largest) % 7
  {
    OnlyLargestIsAccent(i, largest, accent);
    OnlyLargestIsAccent(j, largest, accent);
    if i != largest && j != largest {
      OtherSlotsCycle(Rank(i, largest), Rank(j, largest), accent);
    }
  }

  lemma {:induction false} WithinSeven(r: nat, s: nat)
    requires r < s < r + 7
    ensures r % 7 != s % 7
  {
    assert r == 7 * (r / 7) + r % 7 && s == 7 * (s / 7) + s % 7;
  }

  /** Seven partitions in a row that are not the largest are all drawn differently. */
  lemma {:induction false} SevenInARowDiffer(i: nat, j: nat, largest: nat, accent: nat)
    requires 1 <= i < j && i != largest && j != largest && accent < PALETTE_SIZE
    requires Rank(j, largest) < Rank(i, largest) + 7
    ensures SlotOf(i, largest, accent) != SlotOf(j, largest, accent)
  {
    SharedSlots(i, j, largest, accent);
    WithinSeven(Rank(i, largest), Rank(j, largest));
  }

  /** Partitions with consecutive numbers are drawn differently, however many there are. */
  lemma {:induction false} ConsecutiveDiffer(i: nat, largest: nat, accent: nat)
    requires i >= 1 && accent < PALETTE_SIZE
    ensures SlotOf(i, largest, accent) != SlotOf(i + 1, largest, accent)
  {
    if i == largest || i + 1 == largest {
      OnlyLargestIsAccent(i, largest, accent);
      OnlyLargestIsAccent(i + 1, largest, accent);
    } else {
      SevenInARowDiffer(i, i + 1, largest, accent);
    }
  }

  /** Up to eight partitions are all drawn differently. */
  lemma {:induction false} EightPartitionsDiffer(i: nat, j: nat, n: nat, largest: nat, accent: nat)
    requires 1 <= i < j <= n <= PALETTE_SIZE && 1 <= largest <= n && accent < PALETTE_SIZE
    ensures SlotOf(i, largest, accent) != SlotOf(j, largest, accent)
  {
    if i == largest || j == largest {
      OnlyLargestIsAccent(i, largest, accent);
      OnlyLargestIsAccent(j, largest, accent);
    } else {
      SevenInARowDiffer(i, j, largest, accent);
    }
  }
}
