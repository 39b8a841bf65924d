/** `disk_bar` (core/src/bar.rs): the bar of one disk and the legend that keys it. */
module DiskBar {
  import opened Machine
  import opened Sums
  import opened Sorting
  import opened Model
  import opened Segments
  import opened Palette
  import opened Apportion
  import opened AllocateWidths

  const FREE_ANSI: nat := 240
  const FREE_GLYPH: char := '.'

  /** One column: a coloured block on a terminal, a plain character otherwise. */
  datatype Cell = Block(ansi: nat) | Plain(ch: char)

  function CellIn(color: bool, ansi: nat, ascii: char): Cell {
    if color then Block(ansi) else Plain(ascii)
  }

  function SlotCell(color: bool, slot: nat): Cell
    requires slot < PALETTE_SIZE
  {
    CellIn(color, PALETTE[slot], GLYPHS[slot])
  }

  function FreeCell(color: bool): Cell {
    CellIn(color, FREE_ANSI, FREE_GLYPH)
  }

  /** `push_slice`: w columns of one slice. */
  function Slice(cell: Cell, w: nat): (r: seq<Cell>)
    ensures |r| == w && forall i :: 0 <= i < w ==> r[i] == cell
  {
    seq(w, i => cell)
  }

  datatype LegendRow = LegendRow(swatch: Cell, index: Option<nat>, text: Label, sizeBytes: u64)

  /** The swatch of a slice. */
  function SwatchOf(seg: Segment, color: bool, largest: nat, accent: nat): Cell
    requires accent < PALETTE_SIZE && (seg.index.Some? ==> seg.index.value >= 1)
  {
    match seg.index
    case Some(i) => SlotCell(color, SlotOf(i, largest, accent))
    case None => FreeCell(color)
  }

  /** A run of widths[k] columns of cells[k], for each k in turn. */
  function Runs(cells: seq<Cell>, widths: seq<nat>): seq<Cell>
    requires |cells| == |widths|
  {
    if cells == [] then []
    else Runs(cells[..|cells| - 1], widths[..|cells| - 1]) + Slice(cells[|cells| - 1], widths[|cells| - 1])
  }

  function Swatches(legend: seq<LegendRow>): (r: seq<Cell>)
    ensures |r| == |legend| && forall k :: 0 <= k < |r| ==> r[k] == legend[k].swatch
  {
    seq(|legend|, k requires 0 <= k < |legend| => legend[k].swatch)
  }

  /** The legend has a row for each slice of the disk, with the slice's own swatch. */
  ghost predicate Keys(disk: PhysicalDisk, color: bool, accent: nat, legend: seq<LegendRow>) {
    var segs := Slices(disk);
    && |legend| == |segs|
    && forall k :: 0 <= k < |segs| ==>
         && (segs[k].index.Some? ==> 1 <= segs[k].index.value <= |disk.partitions|)
         && legend[k] == LegendRow(SwatchOf(segs[k], color, Largest(Parts(segs)), accent % PALETTE_SIZE),
                                   segs[k].index, segs[k].text, segs[k].sizeBytes)
  }

  /** The bar is made of runs in the order and the swatches of the legend, as wide as the
      slices' shares of the row. */
  ghost predicate Draws(disk: PhysicalDisk, width: usize, widths: seq<nat>, bar: seq<Cell>, legend: seq<LegendRow>) {
    && |widths| == |legend|
    && IsAllocation(Sizes(Slices(disk)), width, widths)
    && bar == Runs(Swatches(legend), widths)
  }

  // ----- the slices of a disk -----

  lemma {:induction false} SlicesAreNumbered(disk: PhysicalDisk)
    ensures Numbered(Slices(disk)) && |Parts(Slices(disk))| == |disk.partitions|
    ensures forall k :: 0 <= k < |Slices(disk)| && Slices(disk)[k].index.Some? ==>
      1 <= Slices(disk)[k].index.value <= |disk.partitions|
  {
    var segs := Slices(disk);
    PartitionsInOrder(OnDiskOrder(disk), 0, 0, disk.sizeBytes);
    FilterMembers(segs, IsPartition);
    forall k | 0 <= k < |segs| && segs[k].index.Some?
      ensures 1 <= segs[k].index.value <= |disk.partitions|
    {
      assert IsPartition(segs[k]) && segs[k] in Parts(segs);
      var j :| 0 <= j < |Parts(segs)| && Parts(segs)[j] == segs[k];
    }
  }

  lemma {:induction false} SliceCount(ps: seq<Partition>, done: nat, cursor: u64, size: u64)
    ensures |Sweep(ps, done, cursor, size)| <= 2 * |ps| + 1
  {
    if ps != [] {
      SliceCount(ps[1..], done + 1, MaxU64(cursor, End(ps[0])), size);
    }
  }

  // ----- drawing -----

  lemma {:induction false} RunsPrefix(cells: seq<Cell>, widths: seq<nat>, k: nat)
    requires |cells| == |widths| && k < |cells|
    ensures Runs(cells[..k + 1], widths[..k + 1]) == Runs(cells[..k], widths[..k]) + Slice(cells[k], widths[k])
  {
    assert cells[..k + 1][..k] == cells[..k] && widths[..k + 1][..k] == widths[..k];
  }

  /** The cell each slice is drawn in, looked up by its number in a table of slots. */
  ghost function CellsOf(segs: seq<Segment>, slots: seq<nat>, color: bool): (r: seq<Cell>)
    requires HaveSlots(segs, slots)
    ensures |r| == |segs|
    ensures forall k :: 0 <= k < |segs| ==> r[k] == LookUp(segs[k], slots, color)
  {
    seq(|segs|, k requires 0 <= k < |segs| => LookUp(segs[k], slots, color))
  }

  predicate HasSlot(seg: Segment, slots: seq<nat>) {
    seg.index.Some? ==> seg.index.value < |slots| && slots[seg.index.value] < PALETTE_SIZE
  }

  predicate HaveSlots(segs: seq<Segment>, slots: seq<nat>) {
    forall k :: 0 <= k < |segs| ==> HasSlot(segs[k], slots)
  }

  function LookUp(seg: Segment, slots: seq<nat>, color: bool): Cell
    requires HasSlot(seg, slots)
  {
    match seg.index
    case Some(i) => SlotCell(color, slots[i])
    case None => FreeCell(color)
  }

  method DrawBar(segs: seq<Segment>, widths: seq<usize>, slots: seq<nat>, color: bool) returns (bar: seq<Cell>)
    requires HaveSlots(segs, slots) && |widths| == |segs|
    ensures bar == Runs(CellsOf(segs, slots, color), widths)
  {
    ghost var cells := CellsOf(segs, slots, color);
    bar := [];
    for k := 0 to |segs|
      invariant bar == Runs(cells[..k], widths[..k])
    {
      RunsPrefix(cells, widths, k);
      match segs[k].index {
        case Some(i) => bar := bar + Slice(SlotCell(color, slots[i]), widths[k]);
        case None => bar := bar + Slice(FreeCell(color), widths[k]);
      }
    }
    assert cells[..|segs|] == cells && widths[..|segs|] == widths;
  }

  method DrawLegend(segs: seq<Segment>, slots: seq<nat>, color: bool) returns (legend: seq<LegendRow>)
    requires HaveSlots(segs, slots)
    ensures |legend| == |segs|
    ensures forall k :: 0 <= k < |segs| ==>
      legend[k] == LegendRow(LookUp(segs[k], slots, color), segs[k].index, segs[k].text, segs[k].sizeBytes)
  {
    legend := [];
    for k := 0 to |segs|
      invariant |legend| == k
      invariant forall j :: 0 <= j < k ==>
        legend[j] == LegendRow(LookUp(segs[j], slots, color), segs[j].index, segs[j].text, segs[j].sizeBytes)
    {
      var swatch := match segs[k].index
        case Some(i) => SlotCell(color, slots[i])
        case None => FreeCell(color);
      legend := legend + [LegendRow(swatch, segs[k].index, segs[k].text, segs[k].sizeBytes)];
    }
  }

  lemma {:induction false} SlotIsUsable(seg: Segment, slots: seq<nat>, color: bool, largest: nat, slot: nat)
    requires slot < PALETTE_SIZE
    requires forall i :: 1 <= i < |slots| ==> slots[i] == SlotOf(i, largest, slot)
    requires seg.index.Some? ==> 1 <= seg.index.value < |slots|
    ensures HasSlot(seg, slots) && LookUp(seg, slots, color) == SwatchOf(seg, color, largest, slot)
  {
    if seg.index.Some? {
      OnlyLargestIsAccent(seg.index.value, largest, slot);
    }
  }

  lemma {:induction false} SlotsAreUsable(disk: PhysicalDisk, slots: seq<nat>, color: bool, largest: nat, slot: nat)
    requires slot < PALETTE_SIZE && |slots| == |disk.partitions| + 1
    requires forall i :: 1 <= i < |slots| ==> slots[i] == SlotOf(i, largest, slot)
    ensures forall k :: 0 <= k < |Slices(disk)| ==>
      && (Slices(disk)[k].index.Some? ==> 1 <= Slices(disk)[k].index.value <= |disk.partitions|)
      && HasSlot(Slices(disk)[k], slots)
      && LookUp(Slices(disk)[k], slots, color) == SwatchOf(Slices(disk)[k], color, largest, slot)
  {
    SlicesAreNumbered(disk);
    forall k | 0 <= k < |Slices(disk)|
      ensures HasSlot(Slices(disk)[k], slots)
      ensures LookUp(Slices(disk)[k], slots, color) == SwatchOf(Slices(disk)[k], color, largest, slot)
    {
      SlotIsUsable(Slices(disk)[k], slots, color, largest, slot);
    }
  }

  method Draw(disk: PhysicalDisk, width: usize, color: bool, accent: nat)
    returns (bar: seq<Cell>, legend: seq<LegendRow>, ghost widths: seq<nat>)
    requires 2 * |disk.partitions| < U64_MAX
    ensures Keys(disk, color, accent, legend)
    ensures Draws(disk, width, widths, bar, legend)
  {
    var slot := accent % PALETTE_SIZE;
    var segs := ListSegments(disk);
    SlicesAreNumbered(disk);
    SliceCount(OnDiskOrder(disk), 0, 0, disk.sizeBytes);
    var row := Allocate(Sizes(segs), width);
    WidthsFillTheRow(Sizes(segs), width, row);
    var slots := PartitionSlots(segs, slot);
    SlotsAreUsable(disk, slots, color, Largest(Parts(segs)), slot);
    bar := DrawBar(segs, row, slots, color);
    legend := DrawLegend(segs, slots, color);
    widths := row;
    assert Swatches(legend) == CellsOf(segs, slots, color);
  }

  // ----- what the drawing promises -----

  lemma {:induction false} RunsLength(cells: seq<Cell>, widths: seq<nat>)
    requires |cells| == |widths|
    ensures |Runs(cells, widths)| == Sum(widths)
  {
    if cells != [] {
      var n := |cells| - 1;
      RunsLength(cells[..n], widths[..n]);
    }
  }

  /** The bar is exactly as wide as asked if there is anything to draw, and otherwise empty. */
  lemma {:induction false} BarFillsTheWidth(disk: PhysicalDisk, width: usize, widths: seq<nat>, bar: seq<Cell>,
                                            legend: seq<LegendRow>)
    requires Draws(disk, width, widths, bar, legend)
    ensures |bar| == if HasBytes(disk) then width else 0
  {
    RunsLength(Swatches(legend), widths);
    WidthsFillTheRow(Sizes(Slices(disk)), width, widths);
    SlicesHaveBytes(disk);
  }

  /** So a bar can fall short of its width: a disk of size 0 with an empty partition at its
      start has an empty bar over a legend of one row. */
  lemma {:induction false} BarCanBeEmpty(disk: PhysicalDisk, p: Partition, width: usize, color: bool, accent: nat,
                                         widths: seq<nat>, bar: seq<Cell>, legend: seq<LegendRow>)
    requires disk.sizeBytes == 0 && disk.partitions == [p] && p.startOffset == p.sizeBytes == 0
    requires Keys(disk, color, accent, legend) && Draws(disk, width, widths, bar, legend)
    ensures bar == [] && |legend| == 1
  {
    BarFillsTheWidth(disk, width, widths, bar, legend);
    assert OnDiskOrder(disk) == [p];
    var step := Step(p, 0, 0);
    assert step == [PartitionSegment(p, 1)] && [p][1..] == [];
    assert Sweep([p], 0, 0, 0) == step + Sweep([], 1, 0, 0);
  }

  /** Column c of the bar belongs to slice k exactly if c lies in k's stretch of the row, and
      it then shows k's legend swatch. */
  lemma {:induction false} ColumnShowsSlice(cells: seq<Cell>, widths: seq<nat>, k: nat, c: nat)
    requires |cells| == |widths| && k < |cells|
    requires Sum(widths[..k]) <= c < Sum(widths[..k + 1])
    ensures c < |Runs(cells, widths)| && Runs(cells, widths)[c] == cells[k]
  {
    var n := |cells| - 1;
    RunsLength(cells[..n], widths[..n]);
    if k < n {
      assert widths[..n][..k] == widths[..k] && widths[..n][..k + 1] == widths[..k + 1];
      ColumnShowsSlice(cells[..n], widths[..n], k, c);
    } else {
      assert widths[..k + 1] == widths;
    }
  }

  /** With at least as many columns as non-empty slices, every non-empty slice shows. */
  lemma {:induction false} EverySliceShows(disk: PhysicalDisk, width: usize, widths: seq<nat>, bar: seq<Cell>,
                                           legend: seq<LegendRow>, k: nat)
    requires Draws(disk, width, widths, bar, legend)
    requires width >= Positives(Sizes(Slices(disk))) && |legend| == |Slices(disk)|
    requires k < |legend| && Slices(disk)[k].sizeBytes > 0
    ensures widths[k] > 0 && legend[k].swatch in bar
  {
    VisibleIfPossible(Sizes(Slices(disk)), width, widths);
    SumPrefix(widths, k);
    SumPositive(widths[..k]);
    ColumnShowsSlice(Swatches(legend), widths, k, Sum(widths[..k]));
  }

  lemma {:induction false} SlotCellsDiffer(color: bool, s: nat, t: nat)
    requires s < PALETTE_SIZE && t < PALETTE_SIZE
    ensures SlotCell(color, s) == SlotCell(color, t) <==> s == t
    ensures SlotCell(color, s) != FreeCell(color)
  {
  }

  /** Palette entry `slot` as it looks: a block in its colour on a terminal, else its character. */
  predicate LooksLikeSlot(cell: Cell, color: bool, slot: nat) {
    && slot < 8
    && cell == if color then Block([39, 208, 46, 201, 226, 51, 129, 214][slot]) else Plain("#=+*o~x%"[slot])
  }

  lemma {:induction false} SlotLooks(color: bool, slot: nat)
    requires slot < PALETTE_SIZE
    ensures LooksLikeSlot(SlotCell(color, slot), color, slot)
  {
  }

  /** A partition's row shows the palette entry its number is given. */
  lemma {:induction false} RowShowsSlot(disk: PhysicalDisk, color: bool, accent: nat, legend: seq<LegendRow>, k: nat)
    returns (slot: nat)
    requires Keys(disk, color, accent, legend) && k < |legend| && legend[k].index.Some?
    ensures SlotIs(legend[k].index.value, Largest(Parts(Slices(disk))), accent % 8, slot)
    ensures LooksLikeSlot(legend[k].swatch, color, slot)
  {
    var i, largest := legend[k].index.value, Largest(Parts(Slices(disk)));
    slot := SlotOf(i, largest, accent % PALETTE_SIZE);
    OnlyLargestIsAccent(i, largest, accent % PALETTE_SIZE);
    SlotsInOrder(i, largest, accent % PALETTE_SIZE);
    SlotLooks(color, slot);
  }

  /** A gap's row is dim grey on a terminal, else a dot. */
  lemma {:induction false} RowShowsFree(disk: PhysicalDisk, color: bool, accent: nat, legend: seq<LegendRow>, k: nat)
    requires Keys(disk, color, accent, legend) && k < |legend| && legend[k].index.None?
    ensures legend[k].swatch == if color then Block(240) else Plain('.')
  {
  }

  lemma {:induction false} RunsMembers(cells: seq<Cell>, widths: seq<nat>)
    requires |cells| == |widths|
    ensures forall x :: x in Runs(cells, widths) ==> x in cells
  {
    if cells != [] {
      var n := |cells| - 1;
      RunsMembers(cells[..n], widths[..n]);
    }
  }

  lemma {:induction false} SwatchInMode(disk: PhysicalDisk, color: bool, accent: nat, legend: seq<LegendRow>, k: nat)
    requires Keys(disk, color, accent, legend) && k < |legend|
    ensures legend[k].swatch.Block? <==> color
  {
    if legend[k].index.Some? {
      var slot := RowShowsSlot(disk, color, accent, legend, k);
    } else {
      RowShowsFree(disk, color, accent, legend, k);
    }
  }

  /** On a terminal all of the bar and the legend is coloured, and otherwise none of it. */
  lemma {:induction false} DrawnInMode(disk: PhysicalDisk, width: usize, color: bool, accent: nat, widths: seq<nat>,
                                       bar: seq<Cell>, legend: seq<LegendRow>)
    requires Keys(disk, color, accent, legend) && Draws(disk, width, widths, bar, legend)
    ensures forall row :: row in legend ==> (row.swatch.Block? <==> color)
    ensures forall cell :: cell in bar ==> (cell.Block? <==> color)
  {
    forall k | 0 <= k < |legend| ensures legend[k].swatch.Block? <==> color {
      SwatchInMode(disk, color, accent, legend, k);
    }
    RunsMembers(Swatches(legend), widths);
    forall cell | cell in bar ensures cell.Block? <==> color {
      assert cell in Swatches(legend);
      var k :| 0 <= k < |legend| && Swatches(legend)[k] == cell;
    }
  }

  lemma {:induction false} RunsCount(cells: seq<Cell>, widths: seq<nat>, k: nat)
    requires |cells| == |widths| && k < |cells|
    requires forall j :: 0 <= j < |cells| && j != k ==> cells[j] != cells[k]
    ensures multiset(Runs(cells, widths))[cells[k]] == widths[k]
  {
    var n := |cells| - 1;
    if k < n {
      RunsCount(cells[..n], widths[..n], k);
      CountInSlice(cells[n], widths[n], cells[k]);
    } else {
      AbsentFromRuns(cells[..n], widths[..n], cells[k]);
      CountInSlice(cells[n], widths[n], cells[k]);
    }
  }

  lemma {:induction false} CountInSlice(cell: Cell, w: nat, x: Cell)
    ensures multiset(Slice(cell, w))[x] == if x == cell then w else 0
  {
    if w > 0 {
      CountInSlice(cell, w - 1, x);
      assert Slice(cell, w) == Slice(cell, w - 1) + [cell];
    }
  }

  lemma {:induction false} AbsentFromRuns(cells: seq<Cell>, widths: seq<nat>, x: Cell)
    requires |cells| == |widths| && x !in cells
    ensures multiset(Runs(cells, widths))[x] == 0
  {
    if cells != [] {
      var n := |cells| - 1;
      AbsentFromRuns(cells[..n], widths[..n], x);
      CountInSlice(cells[n], widths[n], x);
    }
  }

  lemma {:induction false} NumbersDiffer(segs: seq<Segment>, done: nat, j: nat, k: nat)
    requires forall i :: 0 <= i < |Parts(segs)| ==> Parts(segs)[i].index == Some(done + i + 1)
    requires j < k < |segs| && IsPartition(segs[j]) && IsPartition(segs[k])
    ensures segs[j].index != segs[k].index
  {
    if j == 0 {
      FilterMembers(segs[1..], IsPartition);
      assert segs[k] == segs[1..][k - 1];
      assert segs[k] in Parts(segs[1..]);
      var i :| 0 <= i < |Parts(segs[1..])| && Parts(segs[1..])[i] == segs[k];
      assert Parts(segs) == [segs[0]] + Parts(segs[1..]);
      assert Parts(segs)[0] == segs[0] && Parts(segs)[i + 1] == segs[k];
    } else {
      var p := if IsPartition(segs[0]) then 1 else 0;
      assert Parts(segs[1..]) == Parts(segs)[p..];
      NumbersDiffer(segs[1..], done + p, j - 1, k - 1);
    }
  }

  lemma {:induction false} SwatchesDiffer(disk: PhysicalDisk, color: bool, accent: nat, legend: seq<LegendRow>,
                                          j: nat, k: nat)
    requires Keys(disk, color, accent, legend) && |disk.partitions| <= PALETTE_SIZE
    requires j < |legend| && k < |legend| && j != k && legend[k].index.Some?
    ensures legend[j].swatch != legend[k].swatch
  {
    var segs, slot := Slices(disk), accent % PALETTE_SIZE;
    SlicesAreNumbered(disk);
    var largest, i := Largest(Parts(segs)), segs[k].index.value;
    OnlyLargestIsAccent(i, largest, slot);
    if segs[j].index.Some? {
      var i' := segs[j].index.value;
      NumbersDiffer(segs, 0, Min(j, k), Max(j, k));
      OnlyLargestIsAccent(i', largest, slot);
      EightPartitionsDiffer(Min(i, i'), Max(i, i'), |disk.partitions|, largest, slot);
      SlotCellsDiffer(color, SlotOf(i, largest, slot), SlotOf(i', largest, slot));
    } else {
      SlotCellsDiffer(color, SlotOf(i, largest, slot), 0);
    }
  }

  lemma {:induction false} SwatchIsUnique(disk: PhysicalDisk, color: bool, accent: nat, legend: seq<LegendRow>, k: nat)
    requires Keys(disk, color, accent, legend) && |disk.partitions| <= PALETTE_SIZE
    requires k < |legend| && legend[k].index.Some?
    ensures forall j :: 0 <= j < |legend| && j != k ==> legend[j].swatch != legend[k].swatch
  {
    forall j | 0 <= j < |legend| && j != k ensures legend[j].swatch != legend[k].swatch {
      SwatchesDiffer(disk, color, accent, legend, j, k);
    }
  }

  /** The bar of a disk with at most eight partitions can be read back: counting the columns
      in a partition's swatch gives its width. */
  lemma {:induction false} BarReadsBack(disk: PhysicalDisk, width: usize, color: bool, accent: nat,
                                        widths: seq<nat>, bar: seq<Cell>, legend: seq<LegendRow>, k: nat)
    requires Keys(disk, color, accent, legend) && Draws(disk, width, widths, bar, legend)
    requires |disk.partitions| <= PALETTE_SIZE && k < |legend| && legend[k].index.Some?
    ensures multiset(bar)[legend[k].swatch] == widths[k]
  {
    SwatchIsUnique(disk, color, accent, legend, k);
    RunsCount(Swatches(legend), widths, k);
  }

  lemma {:induction false} NeighbourSwatches(s: Segment, t: Segment, color: bool, largest: nat, slot: nat)
    requires MayFollow(s, t) && slot < PALETTE_SIZE
    requires (s.index.Some? ==> s.index.value >= 1) && (t.index.Some? ==> t.index.value >= 1)
    ensures SwatchOf(s, color, largest, slot) != SwatchOf(t, color, largest, slot)
  {
    if s.index.Some? {
      OnlyLargestIsAccent(s.index.value, largest, slot);
      SlotCellsDiffer(color, SlotOf(s.index.value, largest, slot), 0);
    }
    if t.index.Some? {
      OnlyLargestIsAccent(t.index.value, largest, slot);
      SlotCellsDiffer(color, SlotOf(t.index.value, largest, slot), 0);
    }
    if s.index.Some? && t.index.Some? {
      ConsecutiveDiffer(s.index.value, largest, slot);
      SlotCellsDiffer(color, SlotOf(s.index.value, largest, slot), SlotOf(t.index.value, largest, slot));
    }
  }

  /** Slices next to each other never share a swatch, however many there are. */
  lemma {:induction false} NeighboursDiffer(disk: PhysicalDisk, color: bool, accent: nat, legend: seq<LegendRow>,
                                            k: nat)
    requires Keys(disk, color, accent, legend) && k + 1 < |legend|
    ensures legend[k].swatch != legend[k + 1].swatch
  {
    var segs := Slices(disk);
    NeighboursAlternate(disk, k);
    NeighbourSwatches(segs[k], segs[k + 1], color, Largest(Parts(segs)), accent % PALETTE_SIZE);
  }

  lemma {:induction false} BorderOfRuns(cells: seq<Cell>, widths: seq<nat>, k: nat)
    requires |cells| == |widths| && k + 1 < |cells| && widths[k] > 0 && widths[k + 1] > 0
    ensures var c := Sum(widths[..k + 1]);
            && 0 < c < |Runs(cells, widths)|
            && Runs(cells, widths)[c - 1] == cells[k] && Runs(cells, widths)[c] == cells[k + 1]
  {
    SumPrefix(widths, k);
    SumPrefix(widths, k + 1);
    SumPositive(widths[..k]);
    ColumnShowsSlice(cells, widths, k, Sum(widths[..k + 1]) - 1);
    ColumnShowsSlice(cells, widths, k + 1, Sum(widths[..k + 1]));
  }

  /** So where two slices that both show meet in the bar, the columns left and right of the
      border look different. */
  lemma {:induction false} BordersShow(disk: PhysicalDisk, width: usize, color: bool, accent: nat,
                                       widths: seq<nat>, bar: seq<Cell>, legend: seq<LegendRow>, k: nat)
    requires Keys(disk, color, accent, legend) && Draws(disk, width, widths, bar, legend)
    requires k + 1 < |legend| && widths[k] > 0 && widths[k + 1] > 0
    ensures 0 < Sum(widths[..k + 1]) < |bar|
    ensures bar[Sum(widths[..k + 1]) - 1] != bar[Sum(widths[..k + 1])]
  {
    NeighboursDiffer(disk, color, accent, legend, k);
    BorderOfRuns(Swatches(legend), widths, k);
  }

  /** Row k is that of the largest partition, the last of them on a tie. */
  predicate IsLargestRow(legend: seq<LegendRow>, k: nat)
    requires k < |legend|
  {
    && legend[k].index.Some?
    && (forall j :: 0 <= j < |legend| && legend[j].index.Some? ==> legend[j].sizeBytes <= legend[k].sizeBytes)
    && (forall j :: k < j < |legend| && legend[j].index.Some? ==> legend[j].sizeBytes < legend[k].sizeBytes)
  }

  lemma {:induction false} LargestSlice(disk: PhysicalDisk) returns (k: nat)
    requires disk.partitions != []
    ensures k < |Slices(disk)| && Slices(disk)[k].index == Some(Largest(Parts(Slices(disk))))
    ensures forall j :: 0 <= j < |Slices(disk)| && Slices(disk)[j].index.Some?
                        ==> Slices(disk)[j].sizeBytes <= Slices(disk)[k].sizeBytes
    ensures forall j :: k < j < |Slices(disk)| && Slices(disk)[j].index.Some?
                        ==> Slices(disk)[j].sizeBytes < Slices(disk)[k].sizeBytes
  {
    var segs := Slices(disk);
    var parts := Parts(segs);
    SlicesAreNumbered(disk);
    FilterMembers(segs, IsPartition);
    k := FilterPosition(segs, IsPartition, Largest(parts) - 1);
    forall j | 0 <= j < |segs| && segs[j].index.Some? ensures segs[j].sizeBytes <= segs[k].sizeBytes {
      assert IsPartition(segs[j]) && segs[j] in parts;
    }
    forall j | k < j < |segs| && segs[j].index.Some? ensures segs[j].sizeBytes < segs[k].sizeBytes {
      var m := FilterBehind(segs, IsPartition, k, j);
    }
  }

  lemma {:induction false} SwatchOfLargest(seg: Segment, color: bool, largest: nat, slot: nat)
    requires slot < PALETTE_SIZE && largest >= 1 && seg.index == Some(largest)
    ensures SwatchOf(seg, color, largest, slot) == SlotCell(color, slot)
  {
  }

  /** The row of the largest partition, the last of them on a tie, shows the accent. */
  lemma {:induction false} LargestShowsAccent(disk: PhysicalDisk, color: bool, accent: nat, legend: seq<LegendRow>)
    returns (k: nat)
    requires Keys(disk, color, accent, legend) && disk.partitions != []
    ensures k < |legend| && IsLargestRow(legend, k)
    ensures legend[k].swatch == SlotCell(color, accent % PALETTE_SIZE)
  {
    k := LargestSlice(disk);
    SwatchOfLargest(Slices(disk)[k], color, Largest(Parts(Slices(disk))), accent % PALETTE_SIZE);
  }

  /** The bar of a disk whose partitions lie inside it and apart is drawn to the scale of the
      device: if every slice with bytes in it is worth a column, each is off by less than one. */
  lemma {:induction false} BarIsToScale(disk: PhysicalDisk, width: usize, widths: seq<nat>, bar: seq<Cell>,
                                        legend: seq<LegendRow>, k: nat)
    requires Draws(disk, width, widths, bar, legend) && width > 0 && disk.sizeBytes > 0
    requires Fits(disk.partitions, disk.sizeBytes) && Disjoint(disk.partitions)
    requires k < |Slices(disk)| == |legend|
    requires forall j :: 0 <= j < |Slices(disk)| && Slices(disk)[j].sizeBytes > 0
                         ==> disk.sizeBytes <= Slices(disk)[j].sizeBytes * width
    ensures disk.sizeBytes * widths[k] < Slices(disk)[k].sizeBytes * width + disk.sizeBytes
    ensures Slices(disk)[k].sizeBytes * width < disk.sizeBytes * widths[k] + disk.sizeBytes
  {
    SegmentsTileTheDisk(disk);
    DrawnToScale(Sizes(Slices(disk)), width, widths, k);
  }
}
