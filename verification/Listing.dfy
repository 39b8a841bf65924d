/** `render_listing` (core/src/lib.rs): the overview, then each disk with its bar. */
module Listing {
  import opened Machine
  import opened Sums
  import opened Sorting
  import opened Model
  import opened Palette
  import opened Segments
  import opened DiskBar
  import opened Overview

  datatype Body =
    | NoPartitions
    | Volumes(volumes: seq<Partition>)
    | Bar(bar: seq<Cell>, legend: seq<LegendRow>)

  datatype Listing =
    | NoDisks
    | Disks(overview: Option<Chart>, bodies: seq<Body>)

  /** What is shown for one disk whose bar has the given accent: volumes that share space are
      never drawn as a bar. */
  ghost predicate Shows(d: PhysicalDisk, width: usize, color: bool, accent: nat, body: Body) {
    if d.partitions == [] then body == NoPartitions
    else if d.synthesized then body == Volumes(d.partitions)
    else
      && body.Bar?
      && Keys(d, color, accent, body.legend)
      && exists widths :: Draws(d, width, widths, body.bar, body.legend)
  }

  method RenderBody(d: PhysicalDisk, width: usize, color: bool, accent: nat) returns (body: Body)
    requires 2 * |d.partitions| < U64_MAX
    ensures Shows(d, width, color, accent, body)
  {
    if d.partitions == [] {
      body := NoPartitions;
    } else if d.synthesized {
      body := Volumes(d.partitions);
    } else {
      var bar, legend;
      ghost var widths;
      bar, legend, widths := Draw(d, width, color, accent);
      body := Bar(bar, legend);
      assert Draws(d, width, widths, body.bar, body.legend);
    }
  }

  /** The disk at position p is shown with its rank among the physical disks as accent. */
  ghost predicate ShowsAt(disks: seq<PhysicalDisk>, width: usize, color: bool, p: nat, body: Body) {
    p < |disks| && Shows(disks[p], width, color, PhysicalBefore(disks, p), body)
  }

  /** The first disks are shown in turn. */
  ghost predicate ShowsAll(disks: seq<PhysicalDisk>, width: usize, color: bool, bodies: seq<Body>) {
    || bodies == []
    || (&& ShowsAll(disks, width, color, bodies[..|bodies| - 1])
        && ShowsAt(disks, width, color, |bodies| - 1, bodies[|bodies| - 1]))
  }

  lemma {:induction false} ShownAt(disks: seq<PhysicalDisk>, width: usize, color: bool, bodies: seq<Body>, p: nat)
    requires ShowsAll(disks, width, color, bodies) && p < |bodies|
    ensures ShowsAt(disks, width, color, p, bodies[p])
  {
    if p < |bodies| - 1 {
      ShownAt(disks, width, color, bodies[..|bodies| - 1], p);
    }
  }

  lemma {:induction false} ShowsOneMore(disks: seq<PhysicalDisk>, width: usize, color: bool, bodies: seq<Body>,
                                        body: Body)
    requires ShowsAll(disks, width, color, bodies) && ShowsAt(disks, width, color, |bodies|, body)
    ensures ShowsAll(disks, width, color, bodies + [body])
  {
    assert (bodies + [body])[..|bodies|] == bodies;
  }

  method RenderBodies(disks: seq<PhysicalDisk>, width: usize, color: bool) returns (bodies: seq<Body>)
    requires forall d :: d in disks ==> 2 * |d.partitions| < U64_MAX
    ensures |bodies| == |disks| && ShowsAll(disks, width, color, bodies)
  {
    var physIdx := 0;
    bodies := [];
    for p := 0 to |disks|
      invariant |bodies| == p && physIdx == PhysicalBefore(disks, p)
      invariant ShowsAll(disks, width, color, bodies)
    {
      var d := disks[p];
      var body := RenderBody(d, width, color, physIdx);
      ShowsOneMore(disks, width, color, bodies, body);
      RankStep(disks, p);
      if !d.synthesized {
        physIdx := physIdx + 1;
      }
      bodies := bodies + [body];
    }
  }

  method RenderListing(disks: seq<PhysicalDisk>, width: usize, color: bool) returns (listing: Listing)
    requires Sum(DiskSizes(Physical(disks))) <= U64_MAX
    requires forall d :: d in disks ==> 2 * |d.partitions| < U64_MAX
    ensures listing.NoDisks? <==> disks == []
    ensures listing.Disks? ==> IsOverview(disks, width, color, listing.overview)
    ensures listing.Disks? ==> |listing.bodies| == |disks| && ShowsAll(disks, width, color, listing.bodies)
  {
    if disks == [] {
      return NoDisks;
    }
    var overview := RenderOverview(disks, width, color);
    var bodies := RenderBodies(disks, width, color);
    listing := Disks(overview, bodies);
  }

  lemma {:induction false} RankStep(disks: seq<PhysicalDisk>, p: nat)
    requires p < |disks|
    ensures PhysicalBefore(disks, p + 1) == PhysicalBefore(disks, p) + (if disks[p].synthesized then 0 else 1)
  {
    assert disks[..p + 1] == disks[..p] + [disks[p]];
    FilterConcat(disks[..p], [disks[p]], IsPhysical);
  }

  /** Every disk is shown, in order: a disk without partitions as such, a synthesized one as its
      volumes, and any other as a bar of the width asked for, if it holds a byte. */
  lemma {:induction false} BodiesByKind(disks: seq<PhysicalDisk>, width: usize, color: bool, bodies: seq<Body>, p: nat)
    requires ShowsAll(disks, width, color, bodies) && p < |bodies| == |disks|
    ensures bodies[p] == NoPartitions <==> |disks[p].partitions| == 0
    ensures bodies[p] == Volumes(disks[p].partitions) <==> |disks[p].partitions| > 0 && disks[p].synthesized
    ensures bodies[p].Bar? <==> |disks[p].partitions| > 0 && !disks[p].synthesized
    ensures bodies[p].Bar? && HasBytes(disks[p]) ==> |bodies[p].bar| == width
  {
    ShownAt(disks, width, color, bodies, p);
    if bodies[p].Bar? {
      var widths :| Draws(disks[p], width, widths, bodies[p].bar, bodies[p].legend);
      BarFillsTheWidth(disks[p], width, widths, bodies[p].bar, bodies[p].legend);
    }
  }

  /** A disk's dominant partition has the colour that stands for the disk in the overview:
      in a listing that shows both, every filled column of a physical disk's overview row
      equals the swatch of its largest partition. */
  lemma {:induction false} OverviewAndBarAgree(disks: seq<PhysicalDisk>, width: usize, color: bool, o: Chart,
                                               bodies: seq<Body>, p: nat) returns (k: nat)
    requires IsOverview(disks, width, color, Some(o)) && ShowsAll(disks, width, color, bodies)
    requires p < |bodies| == |disks| && IsPhysical(disks[p]) && disks[p].partitions != []
    ensures bodies[p].Bar? && k < |bodies[p].legend| && IsLargestRow(bodies[p].legend, k)
    ensures PhysicalBefore(disks, p) < |o.rows|
    ensures FilledWith(o.rows[PhysicalBefore(disks, p)], width,
                       Fill(disks[p].sizeBytes, FullSize(Physical(disks)), width), bodies[p].legend[k].swatch)
  {
    ShownAt(disks, width, color, bodies, p);
    RowOfDisk(disks, width, color, o, p);
    k := LargestShowsAccent(disks[p], color, PhysicalBefore(disks, p), bodies[p].legend);
  }
}
