/** `build` (core/src/sysfs.rs): the unified model from the raw text of sysfs and /proc/mounts. */
module Sysfs {
  import opened Machine
  import opened Sorting
  import opened Model
  import opened Text
  import opened Mounts
  import opened Segments

  const SYSFS_SECTOR: nat := 512

  datatype RawPart = RawPart(name: string, size: string, start: string)

  datatype RawDisk = RawDisk(
    name: string,
    size: string,
    removable: string,
    ro: string,
    logical: string,
    physical: string,
    model: Option<string>,
    partitions: seq<RawPart>)

  /** `parse_u64`: 0 for anything that is not a number. */
  function Number(s: string): u64 {
    match ParseUnsigned(Trim(s))
    case Some(n) => n
    case None => 0
  }

  /** Sizes and offsets are counted in sectors; as bytes they must still fit 64 bits. */
  predicate FitsBytes(s: string) {
    Number(s) * SYSFS_SECTOR <= U64_MAX
  }

  predicate PartFits(p: RawPart) {
    FitsBytes(p.start) && FitsBytes(p.size)
  }

  predicate DiskFits(d: RawDisk) {
    FitsBytes(d.size) && forall i :: 0 <= i < |d.partitions| ==> PartFits(d.partitions[i])
  }

  /** The first mount of a device. */
  function FindMount(mounts: seq<Mount>, name: string): (m: Option<Mount>)
    ensures m.None? ==> forall i :: 0 <= i < |mounts| ==> mounts[i].dev != name
    ensures m.Some? ==> exists i :: 0 <= i < |mounts| && mounts[i] == m.value && IsFirstOf(mounts, name, i)
  {
    if mounts == [] then None
    else if mounts[0].dev == name then
      assert IsFirstOf(mounts, name, 0);
      Some(mounts[0])
    else
      var m := FindMount(mounts[1..], name);
      assert m.Some? ==>
               forall i :: 0 <= i < |mounts| - 1 && mounts[1..][i] == m.value && IsFirstOf(mounts[1..], name, i)
                           ==> mounts[i + 1] == m.value && IsFirstOf(mounts, name, i + 1);
      m
  }

  predicate IsFirstOf(mounts: seq<Mount>, name: string, i: nat) {
    i < |mounts| && mounts[i].dev == name && forall j :: 0 <= j < i ==> mounts[j].dev != name
  }

  function PartitionFrom(p: RawPart, mounts: seq<Mount>): Partition
    requires PartFits(p)
  {
    var m := FindMount(mounts, p.name);
    Partition(
      "/dev/" + p.name,
      p.name,
      Number(p.start) * SYSFS_SECTOR,
      Number(p.size) * SYSFS_SECTOR,
      None,
      if m.Some? then Some(m.value.point) else None,
      if m.Some? then Some(m.value.fs) else None,
      None)
  }

  function PartitionsFrom(ps: seq<RawPart>, mounts: seq<Mount>): (r: seq<Partition>)
    requires forall i :: 0 <= i < |ps| ==> PartFits(ps[i])
    ensures |r| == |ps| && forall i :: 0 <= i < |ps| ==> r[i] == PartitionFrom(ps[i], mounts)
  {
    seq(|ps|, i requires 0 <= i < |ps| => PartitionFrom(ps[i], mounts))
  }

  /** `as u32` keeps the low 32 bits; a zero falls back to the default. */
  function SectorSize(s: string, default: u32): u32 {
    var n := Number(s) % U32_LIMIT;
    if n == 0 then default else n
  }

  function DiskFrom(d: RawDisk, mounts: seq<Mount>): PhysicalDisk
    requires DiskFits(d)
  {
    var logical := SectorSize(d.logical, 512);
    PhysicalDisk(
      "/dev/" + d.name,
      d.name,
      Number(d.size) * SYSFS_SECTOR,
      logical,
      SectorSize(d.physical, logical),
      if d.model.Some? && Trim(d.model.value) != [] then Some(Trim(d.model.value)) else None,
      None,
      Number(d.removable) == 1,
      Number(d.ro) == 1,
      StartsWith(d.name, "dm-"),
      StableSort(PartitionsFrom(d.partitions, mounts), StartsNoLater))
  }

  function DisksFrom(ds: seq<RawDisk>, mounts: seq<Mount>): (r: seq<PhysicalDisk>)
    requires forall i :: 0 <= i < |ds| ==> DiskFits(ds[i])
    ensures |r| == |ds| && forall i :: 0 <= i < |ds| ==> r[i] == DiskFrom(ds[i], mounts)
  {
    seq(|ds|, i requires 0 <= i < |ds| => DiskFrom(ds[i], mounts))
  }

  predicate NamedNoLater(a: PhysicalDisk, b: PhysicalDisk) {
    NotAfter(a.name, b.name)
  }

  /** What is built from the raw texts. */
  function Built(ds: seq<RawDisk>, mountsContent: string): seq<PhysicalDisk>
    requires forall i :: 0 <= i < |ds| ==> DiskFits(ds[i])
  {
    StableSort(DisksFrom(ds, ParseMounts(mountsContent)), NamedNoLater)
  }

  lemma {:induction false} NamesOrder()
    ensures TotalPreorder(NamedNoLater)
  {
    forall a: PhysicalDisk, b: PhysicalDisk ensures NamedNoLater(a, b) || NamedNoLater(b, a) {
      NotAfterTotal(a.name, b.name);
    }
    forall a: PhysicalDisk, b: PhysicalDisk, c: PhysicalDisk | NamedNoLater(a, b) && NamedNoLater(b, c)
      ensures NamedNoLater(a, c)
    {
      NotAfterTransitive(a.name, b.name, c.name);
    }
  }

  // ----- what the backend hands on -----

  /** What downstream code relies on: partitions in on-disk order, sector sizes that are not zero. */
  predicate WellFormed(d: PhysicalDisk) {
    && d.logicalSectorSize > 0 && d.physicalSectorSize > 0
    && forall i, j :: 0 <= i < j < |d.partitions| ==> d.partitions[i].startOffset <= d.partitions[j].startOffset
  }

  /** The partition is what the kernel describes as r: it keeps r's name, counts in bytes what is
      given in sectors of 512, and carries the first mount listed for r's name, or none. */
  ghost predicate ShowsPart(p: Partition, r: RawPart, mounts: seq<Mount>) {
    && p.name == r.name && p.devicePath == "/dev/" + r.name
    && p.startOffset == 512 * Number(r.start) && p.sizeBytes == 512 * Number(r.size)
    && p.partitionType == None && p.volumeLabel == None
    && (forall i: nat :: IsFirstOf(mounts, r.name, i) ==>
          p.mountPoint == Some(mounts[i].point) && p.filesystem == Some(mounts[i].fs))
    && ((forall i :: 0 <= i < |mounts| ==> mounts[i].dev != r.name) ==> p.mountPoint == None && p.filesystem == None)
  }

  predicate StartsNoLaterRaw(a: RawPart, b: RawPart) {
    Number(a.start) <= Number(b.start)
  }

  /** The disk is what the kernel describes as raw, with its partitions by their start and
      those that start together in the order listed. */
  ghost predicate ShowsDisk(d: PhysicalDisk, raw: RawDisk, mounts: seq<Mount>) {
    var logical, physical := Number(raw.logical) % 0x1_0000_0000, Number(raw.physical) % 0x1_0000_0000;
    && d.name == raw.name && d.devicePath == "/dev/" + raw.name
    && d.sizeBytes == 512 * Number(raw.size)
    && d.logicalSectorSize == (if logical == 0 then 512 else logical)
    && d.physicalSectorSize == (if physical == 0 then d.logicalSectorSize else physical)
    && d.model == (match raw.model
                   case Some(text) => if Trim(text) == "" then None else Some(Trim(text))
                   case None => None)
    && d.serial == None
    && d.removable == (Number(raw.removable) == 1) && d.readOnly == (Number(raw.ro) == 1)
    && d.synthesized == ("dm-" <= raw.name)
    && |d.partitions| == |raw.partitions|
    && forall i :: 0 <= i < |d.partitions| ==>
         ShowsPart(d.partitions[i], StableSort(raw.partitions, StartsNoLaterRaw)[i], mounts)
  }

  predicate NamedNoLaterRaw(a: RawDisk, b: RawDisk) {
    NotAfter(a.name, b.name)
  }

  /** The disks described by the raw texts, each once and sorted by name, with those of the same
      name in the order listed. */
  ghost predicate Delivers(ds: seq<RawDisk>, mounts: seq<Mount>, out: seq<PhysicalDisk>) {
    |out| == |ds| && forall k :: 0 <= k < |out| ==> ShowsDisk(out[k], StableSort(ds, NamedNoLaterRaw)[k], mounts)
  }

  lemma {:induction false} CarriesFirstMount(p: RawPart, mounts: seq<Mount>)
    requires PartFits(p)
    ensures ShowsPart(PartitionFrom(p, mounts), p, mounts)
  {
    forall i: nat | IsFirstOf(mounts, p.name, i) ensures FindMount(mounts, p.name) == Some(mounts[i]) {
      FirstIsFound(mounts, p.name, i);
    }
  }

  lemma {:induction false} FirstIsFound(mounts: seq<Mount>, name: string, i: nat)
    requires IsFirstOf(mounts, name, i)
    ensures FindMount(mounts, name) == Some(mounts[i])
  {
    if i > 0 {
      FirstIsFound(mounts[1..], name, i - 1);
    }
  }

  function PartMadeFrom(mounts: seq<Mount>): (RawPart, Partition) -> bool {
    (r: RawPart, p: Partition) => PartFits(r) && p == PartitionFrom(r, mounts)
  }

  lemma {:induction false} PartsOrderedAlike(mounts: seq<Mount>)
    ensures OrderedAlike(PartMadeFrom(mounts), StartsNoLaterRaw, StartsNoLater)
  {
    forall a, b, p, q | PartMadeFrom(mounts)(a, p) && PartMadeFrom(mounts)(b, q)
      ensures StartsNoLaterRaw(a, b) == StartsNoLater(p, q)
    {
      assert PartFits(a) && p == PartitionFrom(a, mounts) && PartFits(b) && q == PartitionFrom(b, mounts);
    }
  }

  lemma {:induction false} PartitionsShow(d: RawDisk, mounts: seq<Mount>)
    requires DiskFits(d)
    ensures Related(StableSort(d.partitions, StartsNoLaterRaw), DiskFrom(d, mounts).partitions, PartMadeFrom(mounts))
  {
    PartsOrderedAlike(mounts);
    SortRelated(d.partitions, PartitionsFrom(d.partitions, mounts), PartMadeFrom(mounts), StartsNoLaterRaw,
                StartsNoLater);
  }

  lemma {:induction false} DiskShows(d: RawDisk, mounts: seq<Mount>)
    requires DiskFits(d)
    ensures ShowsDisk(DiskFrom(d, mounts), d, mounts)
  {
    var rs, ps := StableSort(d.partitions, StartsNoLaterRaw), DiskFrom(d, mounts).partitions;
    PartitionsShow(d, mounts);
    forall i | 0 <= i < |ps| ensures ShowsPart(ps[i], rs[i], mounts) {
      assert PartMadeFrom(mounts)(rs[i], ps[i]);
      CarriesFirstMount(rs[i], mounts);
    }
  }

  function DiskMadeFrom(mounts: seq<Mount>): (RawDisk, PhysicalDisk) -> bool {
    (r: RawDisk, d: PhysicalDisk) => DiskFits(r) && d == DiskFrom(r, mounts)
  }

  lemma {:induction false} DisksOrderedAlike(mounts: seq<Mount>)
    ensures OrderedAlike(DiskMadeFrom(mounts), NamedNoLaterRaw, NamedNoLater)
  {
    forall a, b, d, e | DiskMadeFrom(mounts)(a, d) && DiskMadeFrom(mounts)(b, e)
      ensures NamedNoLaterRaw(a, b) == NamedNoLater(d, e)
    {
      assert DiskFits(a) && d == DiskFrom(a, mounts) && DiskFits(b) && e == DiskFrom(b, mounts);
    }
  }

  /** What is built delivers all of this. */
  lemma {:induction false} BuildDelivers(ds: seq<RawDisk>, mountsContent: string)
    requires forall i :: 0 <= i < |ds| ==> DiskFits(ds[i])
    ensures Delivers(ds, ParseMounts(mountsContent), Built(ds, mountsContent))
  {
    var mounts := ParseMounts(mountsContent);
    var es, out := StableSort(ds, NamedNoLaterRaw), Built(ds, mountsContent);
    DisksOrderedAlike(mounts);
    SortRelated(ds, DisksFrom(ds, mounts), DiskMadeFrom(mounts), NamedNoLaterRaw, NamedNoLater);
    forall k | 0 <= k < |out| ensures ShowsDisk(out[k], es[k], mounts) {
      assert DiskMadeFrom(mounts)(es[k], out[k]);
      DiskShows(es[k], mounts);
    }
  }

  lemma {:induction false} PartIsShownOnce(p: Partition, q: Partition, r: RawPart, mounts: seq<Mount>)
    requires ShowsPart(p, r, mounts) && ShowsPart(q, r, mounts)
    ensures p == q
  {
    var m := FindMount(mounts, r.name);
    if m.Some? {
      var i :| 0 <= i < |mounts| && IsFirstOf(mounts, r.name, i);
    }
  }

  /** Nothing else delivers it. */
  lemma {:induction false} DeliveryIsUnique(ds: seq<RawDisk>, mounts: seq<Mount>, a: seq<PhysicalDisk>,
                                            b: seq<PhysicalDisk>)
    requires Delivers(ds, mounts, a) && Delivers(ds, mounts, b)
    ensures a == b
  {
    forall k | 0 <= k < |a| ensures a[k] == b[k] {
      var raw := StableSort(ds, NamedNoLaterRaw)[k];
      assert ShowsDisk(a[k], raw, mounts) && ShowsDisk(b[k], raw, mounts);
      forall i | 0 <= i < |raw.partitions| ensures a[k].partitions[i] == b[k].partitions[i] {
        var r := StableSort(raw.partitions, StartsNoLaterRaw)[i];
        PartIsShownOnce(a[k].partitions[i], b[k].partitions[i], r, mounts);
      }
    }
  }

  lemma {:induction false} DiskIsWellFormed(d: RawDisk, mounts: seq<Mount>)
    requires DiskFits(d)
    ensures WellFormed(DiskFrom(d, mounts))
  {
    var ps := PartitionsFrom(d.partitions, mounts);
    StartsNoLaterOrders();
    SortSorts(ps, StartsNoLater);
    forall i, j | 0 <= i < j < |ps|
      ensures StableSort(ps, StartsNoLater)[i].startOffset <= StableSort(ps, StartsNoLater)[j].startOffset
    {
      assert StartsNoLater(StableSort(ps, StartsNoLater)[i], StableSort(ps, StartsNoLater)[j]);
    }
  }

  lemma {:induction false} BuiltIsSorted(ds: seq<RawDisk>, mountsContent: string)
    requires forall i :: 0 <= i < |ds| ==> DiskFits(ds[i])
    ensures Sorted(Built(ds, mountsContent), NamedNoLater)
  {
    NamesOrder();
    SortSorts(DisksFrom(ds, ParseMounts(mountsContent)), NamedNoLater);
  }

  /** Names come in order, and every disk is well-formed. */
  lemma {:induction false} BuildSorts(ds: seq<RawDisk>, mountsContent: string)
    requires forall i :: 0 <= i < |ds| ==> DiskFits(ds[i])
    ensures var out := Built(ds, mountsContent);
            && (forall i, j :: 0 <= i < j < |out| ==> NotAfter(out[i].name, out[j].name))
            && (forall i :: 0 <= i < |out| ==> WellFormed(out[i]))
  {
    var mounts := ParseMounts(mountsContent);
    var out := Built(ds, mountsContent);
    BuiltIsSorted(ds, mountsContent);
    forall i, j | 0 <= i < j < |out| ensures NotAfter(out[i].name, out[j].name) {
      assert NamedNoLater(out[i], out[j]);
    }
    forall i | 0 <= i < |out| ensures WellFormed(out[i]) {
      var k := PlaceIn(out, DisksFrom(ds, mounts), i);
      DiskIsWellFormed(ds[k], mounts);
    }
  }

  method Build(ds: seq<RawDisk>, mountsContent: string) returns (out: seq<PhysicalDisk>)
    requires forall i :: 0 <= i < |ds| ==> DiskFits(ds[i])
    ensures Delivers(ds, ParseMounts(mountsContent), out)
    ensures out == Built(ds, mountsContent)
  {
    var mounts := ParseMounts(mountsContent);
    out := DisksFrom(ds, mounts);
    out := StableSort(out, NamedNoLater);
    BuildDelivers(ds, mountsContent);
  }

  /** The bar of a disk built here numbers its slices by position: slice i is partitions[i - 1]. */
  lemma {:induction false} BuiltDisksKeepTheirOrder(ds: seq<RawDisk>, mountsContent: string, k: nat)
    requires forall i :: 0 <= i < |ds| ==> DiskFits(ds[i])
    requires k < |Built(ds, mountsContent)|
    ensures var d := Built(ds, mountsContent)[k];
            && OnDiskOrder(d) == d.partitions
            && Filter(Slices(d), IsPartition) == NumberedFrom(d.partitions, 0)
  {
    BuildSorts(ds, mountsContent);
    var d := Built(ds, mountsContent)[k];
    assert WellFormed(d);
    SortedIsFixed(d.partitions, StartsNoLater);
    PartitionsInOrder(d.partitions, 0, 0, d.sizeBytes);
  }

  /** Listing the disks of a machine in another order changes nothing if their names differ. */
  lemma {:induction false} BuildIgnoresListingOrder(ds: seq<RawDisk>, es: seq<RawDisk>, mountsContent: string)
    requires (forall i :: 0 <= i < |ds| ==> DiskFits(ds[i])) && (forall i :: 0 <= i < |es| ==> DiskFits(es[i]))
    requires multiset(ds) == multiset(es)
    requires forall i, j :: 0 <= i < j < |ds| ==> ds[i].name != ds[j].name
    ensures Built(ds, mountsContent) == Built(es, mountsContent)
  {
    var mounts := ParseMounts(mountsContent);
    var a, b := DisksFrom(ds, mounts), DisksFrom(es, mounts);
    ImagesPermute(ds, es, a, b);
    NamesOrder();
    forall i, j | 0 <= i < j < |a| ensures !(NamedNoLater(a[i], a[j]) && NamedNoLater(a[j], a[i])) {
      NotAfterTotal(a[i].name, a[j].name);
    }
    SortIgnoresOrder(a, b, NamedNoLater);
  }

  /** A decimal with whitespace around it is read as its value, or as 0 if that is too large. */
  lemma {:induction false} NumberReadsDecimal(pre: string, n: nat, post: string)
    requires Blank(pre) && Blank(post)
    ensures Number(pre + Decimal(n) + post) == if n <= U64_MAX then n else 0
  {
    var d := Decimal(n);
    assert IsDigit(d[0]) && IsDigit(d[|d| - 1]);
    TrimDrops(pre, d, post);
    ParseOfDecimal(n);
  }

  /** How sysfs prints a number. */
  function Printed(n: nat): string {
    Decimal(n) + "\n"
  }

  lemma {:induction false} NumberReadsPrinted(n: u64)
    ensures Number(Printed(n)) == n
  {
    assert [] + Decimal(n) + "\n" == Printed(n);
    NumberReadsDecimal([], n, "\n");
  }

  /** A partition's place and size are read back in bytes. */
  lemma {:induction false} PartitionReadsBack(name: string, start: nat, size: nat, mounts: seq<Mount>)
    requires start * SYSFS_SECTOR <= U64_MAX && size * SYSFS_SECTOR <= U64_MAX
    ensures var p := RawPart(name, Printed(size), Printed(start));
            && PartFits(p)
            && PartitionFrom(p, mounts).startOffset == start * SYSFS_SECTOR
            && PartitionFrom(p, mounts).sizeBytes == size * SYSFS_SECTOR
  {
    NumberReadsPrinted(start);
    NumberReadsPrinted(size);
  }

  /** A sector size is read back from 32 bits, and a zero stands for the default. */
  lemma {:induction false} SectorSizeReadsBack(n: u32, default: u32)
    ensures SectorSize(Printed(n), default) == if n == 0 then default else n
  {
    NumberReadsPrinted(n);
  }

  /** A disk's numbers are read back: the size in bytes, flags that are set exactly for 1, and
      sector sizes where the physical one falls back on the logical one and that on 512. */
  lemma {:induction false} DiskReadsBack(raw: RawDisk, size: u64, removable: u64, ro: u64, logical: u32, physical: u32,
                                         mounts: seq<Mount>)
    requires DiskFits(raw) && raw.size == Printed(size)
    requires raw.removable == Printed(removable) && raw.ro == Printed(ro)
    requires raw.logical == Printed(logical) && raw.physical == Printed(physical)
    ensures var d := DiskFrom(raw, mounts);
            && d.sizeBytes == size * SYSFS_SECTOR
            && d.removable == (removable == 1) && d.readOnly == (ro == 1)
            && d.logicalSectorSize == (if logical == 0 then 512 else logical)
            && d.physicalSectorSize == (if physical == 0 then d.logicalSectorSize else physical)
  {
    NumberReadsPrinted(size);
    NumberReadsPrinted(removable);
    NumberReadsPrinted(ro);
    SectorSizeReadsBack(logical, 512);
    SectorSizeReadsBack(physical, if logical == 0 then 512 else logical);
  }

  /** A model name loses the whitespace around it, and counts as absent if nothing is left. */
  lemma {:induction false} ModelIsTrimmed(raw: RawDisk, pre: string, model: string, post: string, mounts: seq<Mount>)
    requires DiskFits(raw) && raw.model == Some(pre + model + post)
    requires Blank(pre) && Blank(post) && Trimmed(model)
    ensures DiskFrom(raw, mounts).model == if model == [] then None else Some(model)
  {
    TrimDrops(pre, model, post);
  }
}
