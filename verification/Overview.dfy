/** `render_overview` (core/src/bar.rs): one bar per physical disk, scaled to the largest. */
module Overview {
  import opened Machine
  import opened Sums
  import opened Sorting
  import opened Model
  import opened Palette
  import opened Apportion
  import opened DiskBar

  predicate IsPhysical(d: PhysicalDisk) {
    !d.synthesized
  }

  function Physical(disks: seq<PhysicalDisk>): seq<PhysicalDisk> {
    Filter(disks, IsPhysical)
  }

  function SizeOf(d: PhysicalDisk): u64 {
    d.sizeBytes
  }

  function DiskSizes(disks: seq<PhysicalDisk>): (sizes: seq<u64>)
    ensures |sizes| == |disks| && forall i :: 0 <= i < |disks| ==> sizes[i] == disks[i].sizeBytes
  {
    Apply(SizeOf, disks)
  }

  /** The size that fills a row: that of the largest disk, and at least 1. */
  function FullSize(disks: seq<PhysicalDisk>): (m: u64)
    ensures m >= 1 && forall d :: d in disks ==> d.sizeBytes <= m
    ensures m == 1 || exists d :: d in disks && d.sizeBytes == m
  {
    if disks == [] then 1
    else
      var m := FullSize(disks[1..]);
      assert disks == [disks[0]] + disks[1..];
      if disks[0].sizeBytes > m then disks[0].sizeBytes else m
  }

  /** How many columns of a row a disk fills. */
  function Fill(size: u64, full: u64, width: usize): nat
    requires full >= 1
  {
    var fill := DivMod(size * width, full).0;
    Min(if size > 0 && fill == 0 then 1 else fill, width)
  }

  datatype OverviewRow = OverviewRow(name: string, sizeBytes: u64, bar: seq<Cell>)

  const BLANK: Cell := Plain(' ')

  /** The row is `width` columns wide, the first `fill` of them show `cell` and the rest are blank. */
  predicate FilledWith(row: OverviewRow, width: nat, fill: nat, cell: Cell) {
    && |row.bar| == width
    && forall c :: 0 <= c < width ==> row.bar[c] == if c < fill then cell else BLANK
  }

  /** The row names the disk and its size, and is filled to the disk's scale in the colour of
      its rank among the physical disks. */
  predicate IsRowOf(row: OverviewRow, d: PhysicalDisk, rank: nat, full: u64, width: usize, color: bool)
    requires full >= 1
  {
    && row.name == d.name && row.sizeBytes == d.sizeBytes
    && FilledWith(row, width, Fill(d.sizeBytes, full, width), SlotCell(color, rank % PALETTE_SIZE))
  }

  datatype Chart = Chart(total: u64, rows: seq<OverviewRow>)

  /** Nothing with fewer than two physical disks; otherwise their total size and a row each, in order. */
  ghost predicate IsOverview(disks: seq<PhysicalDisk>, width: usize, color: bool, o: Option<Chart>) {
    var physical := Physical(disks);
    if |physical| < 2 then o == None
    else
      && o.Some?
      && o.value.total == Sum(DiskSizes(physical))
      && |o.value.rows| == |physical|
      && forall i :: 0 <= i < |physical| ==>
           IsRowOf(o.value.rows[i], physical[i], i, FullSize(physical), width, color)
  }

  method RenderRow(d: PhysicalDisk, rank: nat, full: u64, width: usize, color: bool) returns (row: OverviewRow)
    requires 1 <= full && d.sizeBytes <= full
    ensures IsRowOf(row, d, rank, full, width, color)
  {
    var slot := rank % PALETTE_SIZE;
    ProductFits(d.sizeBytes, width);
    var product: u128 := d.sizeBytes * width;
    ScaledFits(d.sizeBytes, full, width);
    var fill: usize := DivMod(product, full).0;
    if d.sizeBytes > 0 && fill == 0 {
      fill := 1;
    }
    fill := Min(fill, width);
    var bar := Slice(SlotCell(color, slot), fill);
    bar := bar + Slice(BLANK, width - fill);
    row := OverviewRow(d.name, d.sizeBytes, bar);
  }

  method RenderRows(physical: seq<PhysicalDisk>, full: u64, width: usize, color: bool)
    returns (rows: seq<OverviewRow>)
    requires full >= 1 && forall d :: d in physical ==> d.sizeBytes <= full
    ensures |rows| == |physical|
    ensures forall i :: 0 <= i < |physical| ==> IsRowOf(rows[i], physical[i], i, full, width, color)
  {
    rows := [];
    for i := 0 to |physical|
      invariant |rows| == i
      invariant forall j :: 0 <= j < i ==> IsRowOf(rows[j], physical[j], j, full, width, color)
    {
      var row := RenderRow(physical[i], i, full, width, color);
      rows := rows + [row];
    }
  }

  method RenderOverview(disks: seq<PhysicalDisk>, width: usize, color: bool) returns (o: Option<Chart>)
    requires Sum(DiskSizes(Physical(disks))) <= U64_MAX
    ensures IsOverview(disks, width, color, o)
  {
    var physical := Filter(disks, IsPhysical);
    if |physical| < 2 {
      return None;
    }
    SumPositive(DiskSizes(physical));
    var total: u64 := Sum(DiskSizes(physical));
    var full := FullSize(physical);
    var rows := RenderRows(physical, full, width, color);
    o := Some(Chart(total, rows));
  }

  // ----- what the chart promises -----

  /** There is a chart exactly if two disks are not synthesized. */
  lemma {:induction false} ChartNeedsTwo(disks: seq<PhysicalDisk>, width: usize, color: bool, o: Option<Chart>)
    requires IsOverview(disks, width, color, o)
    ensures o.Some? <==> exists i, j :: 0 <= i < j < |disks| && !disks[i].synthesized && !disks[j].synthesized
  {
    if |Physical(disks)| >= 2 {
      var i := FilterPosition(disks, IsPhysical, 0);
      var j := FilterPosition(disks, IsPhysical, 1);
      assert i != j;
      var first, second := if i < j then i else j, if i < j then j else i;
      assert !disks[first].synthesized && !disks[second].synthesized;
    }
    if i, j :| 0 <= i < j < |disks| && !disks[i].synthesized && !disks[j].synthesized {
      var m := FilterBehind(disks, IsPhysical, i, j);
    }
  }

  lemma {:induction false} ScaledFits(size: u64, full: u64, width: usize)
    requires full >= 1 && size <= full
    ensures 0 <= DivMod(size * width, full).0 <= width
  {
    var qr := DivMod(size * width, full);
    ProductLe(size, width, full, width);
    if qr.0 > width {
      MulStep(full, width, qr.0);
      assert false;
    }
  }

  /** A physical disk's row stands at its rank, spans the width and is drawn in the rank's slot. */
  lemma {:induction false} RowOfDisk(disks: seq<PhysicalDisk>, width: usize, color: bool, o: Chart, p: nat)
    requires IsOverview(disks, width, color, Some(o)) && p < |disks| && IsPhysical(disks[p])
    ensures var rank := PhysicalBefore(disks, p);
            && rank < |o.rows| && o.rows[rank].name == disks[p].name
            && FilledWith(o.rows[rank], width, Fill(disks[p].sizeBytes, FullSize(Physical(disks)), width),
                          SlotCell(color, rank % PALETTE_SIZE))
  {
    RankIsPlace(disks, p);
  }

  /** On a terminal the filled columns of a physical disk's row are blocks, otherwise characters,
      in the palette entry of its rank; either way they stand out from the blanks behind them. */
  lemma {:induction false} RowInMode(disks: seq<PhysicalDisk>, width: usize, color: bool, o: Chart, p: nat, c: nat)
    requires IsOverview(disks, width, color, Some(o)) && p < |disks| && IsPhysical(disks[p]) && c < width
    ensures var rank := PhysicalBefore(disks, p);
            && rank < |o.rows| && |o.rows[rank].bar| == width
            && if c < Fill(disks[p].sizeBytes, FullSize(Physical(disks)), width)
               then LooksLikeSlot(o.rows[rank].bar[c], color, rank % 8) && o.rows[rank].bar[c] != Plain(' ')
               else o.rows[rank].bar[c] == Plain(' ')
  {
    RowOfDisk(disks, width, color, o, p);
    SlotLooks(color, PhysicalBefore(disks, p) % PALETTE_SIZE);
  }

  /** A larger disk fills at least as much. */
  lemma {:induction false} FillIsMonotone(small: u64, large: u64, full: u64, width: usize)
    requires small <= large <= full && full >= 1
    ensures Fill(small, full, width) <= Fill(large, full, width) <= width
  {
    var s, l := DivMod(small * width, full), DivMod(large * width, full);
    ProductLe(small, width, large, width);
    FloorsMonotone(full, l.0, l.1, s.0, s.1);
  }

  /** An empty disk fills nothing, any other disk something, and the largest the whole row. */
  lemma {:induction false} FillEnds(size: u64, full: u64, width: usize)
    requires size <= full && full >= 1
    ensures size == 0 ==> Fill(size, full, width) == 0
    ensures size > 0 && width > 0 ==> Fill(size, full, width) >= 1
    ensures size == full ==> Fill(size, full, width) == width
  {
    var s := DivMod(size * width, full);
    ScaledFits(size, full, width);
    if size == full {
      FloorsMonotone(full, s.0, s.1, width, 0);
    }
  }

  /** What a disk fills is off the exact proportion by less than a column, except that a disk
      that is not empty is shown at all. */
  lemma {:induction false} FillIsToScale(size: u64, full: u64, width: usize)
    requires size <= full && full >= 1 && width > 0
    ensures size * width < full * Fill(size, full, width) + full
    ensures full * Fill(size, full, width) <= size * width || Fill(size, full, width) == 1
  {
    var s := DivMod(size * width, full);
    ScaledFits(size, full, width);
    var fill := Fill(size, full, width);
    assert fill == s.0 || (fill == 1 && s.0 == 0);
  }

  // ----- ranks -----

  /** How many physical disks come before position p. */
  function PhysicalBefore(disks: seq<PhysicalDisk>, p: nat): nat
    requires p <= |disks|
  {
    |Physical(disks[..p])|
  }

  /** A physical disk's rank is its place in the chart. */
  lemma {:induction false} RankIsPlace(disks: seq<PhysicalDisk>, p: nat)
    requires p < |disks| && IsPhysical(disks[p])
    ensures PhysicalBefore(disks, p) < |Physical(disks)|
    ensures Physical(disks)[PhysicalBefore(disks, p)] == disks[p]
  {
    assert disks == disks[..p] + ([disks[p]] + disks[p + 1..]);
    FilterConcat(disks[..p], [disks[p]] + disks[p + 1..], IsPhysical);
    FilterConcat([disks[p]], disks[p + 1..], IsPhysical);
  }
}
