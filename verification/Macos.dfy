/** `assemble` (core/src/macos.rs): flat media records grouped into disks. */
module Macos {
  import opened Machine
  import opened Sorting
  import opened Model
  import opened Text
  import opened Segments

  datatype RawMedia = RawMedia(
    bsd: string,
    size: u64,
    block: u32,
    base: u64,
    whole: bool,
    removable: bool,
    writable: bool,
    content: string,
    ioClass: string)

  const DISK: string := "disk"

  function LeadingDigits(s: string): (d: string)
    ensures d <= s && Digits(d)
    ensures |d| < |s| ==> !IsDigit(s[|d|])
  {
    if s == [] || !IsDigit(s[0]) then [] else [s[0]] + LeadingDigits(s[1..])
  }

  /** The whole disk a partition's name points at. */
  function WholeDiskOf(bsd: string): string {
    var rest := if StartsWith(bsd, DISK) then bsd[|DISK|..] else bsd;
    DISK + LeadingDigits(rest)
  }

  /** The number in a whole disk's name; names without one sort last. */
  function DiskIndex(name: string): u64 {
    if StartsWith(name, DISK) then
      match ParseUnsigned(name[|DISK|..])
      case Some(n) => n
      case None => U64_MAX
    else U64_MAX
  }

  function WholeDisk(m: RawMedia): PhysicalDisk {
    PhysicalDisk("/dev/" + m.bsd, m.bsd, m.size, m.block, m.block, None, None,
                 m.removable, !m.writable, StartsWith(m.ioClass, "AppleAPFS"), [])
  }

  function PartitionOf(m: RawMedia): Partition {
    Partition("/dev/" + m.bsd, m.bsd, m.base, m.size,
              if m.content == [] then None else Some(m.content), None, None, None)
  }

  predicate IndexedNoLater(a: PhysicalDisk, b: PhysicalDisk) {
    DiskIndex(a.name) <= DiskIndex(b.name)
  }

  predicate IsWhole(m: RawMedia) {
    m.whole
  }

  predicate IsPart(m: RawMedia) {
    !m.whole
  }

  function WholeDisks(media: seq<RawMedia>): seq<PhysicalDisk> {
    Apply(WholeDisk, Filter(media, IsWhole))
  }

  // ----- the algorithm -----

  /** The position of the first disk with a name. */
  function FirstNamed(disks: seq<PhysicalDisk>, name: string): (k: nat)
    ensures k <= |disks|
    ensures k < |disks| ==> disks[k].name == name
    ensures forall j :: 0 <= j < k ==> disks[j].name != name
  {
    if disks == [] || disks[0].name == name then 0 else 1 + FirstNamed(disks[1..], name)
  }

  function BelongsTo(disks: seq<PhysicalDisk>, k: nat): RawMedia -> bool {
    (m: RawMedia) => FirstNamed(disks, WholeDiskOf(m.bsd)) == k
  }

  /** The partitions among some media that hang below the disk at position k. */
  function Children(disks: seq<PhysicalDisk>, parts: seq<RawMedia>, k: nat): seq<Partition> {
    Apply(PartitionOf, Filter(parts, BelongsTo(disks, k)))
  }

  /** The whole disks with the partitions of `parts` hung below them. */
  function WithChildren(disks: seq<PhysicalDisk>, parts: seq<RawMedia>): (r: seq<PhysicalDisk>)
    ensures |r| == |disks|
    ensures forall k :: 0 <= k < |disks| ==> r[k] == disks[k].(partitions := Children(disks, parts, k))
  {
    seq(|disks|, k requires 0 <= k < |disks| => disks[k].(partitions := Children(disks, parts, k)))
  }

  function InOffsetOrder(d: PhysicalDisk): PhysicalDisk {
    d.(partitions := StableSort(d.partitions, StartsNoLater))
  }

  /** The assembled disks before they are sorted. */
  function Grouped(media: seq<RawMedia>): (g: seq<PhysicalDisk>)
    ensures |g| == |WholeDisks(media)|
  {
    Apply(InOffsetOrder, WithChildren(WholeDisks(media), Filter(media, IsPart)))
  }

  /** What is assembled from the media. */
  function Assembled(media: seq<RawMedia>): seq<PhysicalDisk> {
    StableSort(Grouped(media), IndexedNoLater)
  }

  lemma {:induction false} FirstNamedKeepsNames(a: seq<PhysicalDisk>, b: seq<PhysicalDisk>, name: string)
    requires |a| == |b| && forall k :: 0 <= k < |a| ==> a[k].name == b[k].name
    ensures FirstNamed(a, name) == FirstNamed(b, name)
  {
    if a != [] {
      FirstNamedKeepsNames(a[1..], b[1..], name);
    }
  }

  lemma {:induction false} ChildrenSnoc(disks: seq<PhysicalDisk>, parts: seq<RawMedia>, m: RawMedia, k: nat)
    ensures Children(disks, parts + [m], k)
         == Children(disks, parts, k)
            + (if FirstNamed(disks, WholeDiskOf(m.bsd)) == k then [PartitionOf(m)] else [])
  {
    FilterConcat(parts, [m], BelongsTo(disks, k));
  }

  /** One partition pushed below its parent, if it has one. */
  function Attach(disks: seq<PhysicalDisk>, m: RawMedia): seq<PhysicalDisk> {
    var k := FirstNamed(disks, WholeDiskOf(m.bsd));
    if k < |disks| then disks[k := disks[k].(partitions := disks[k].partitions + [PartitionOf(m)])] else disks
  }

  lemma {:induction false} AttachAdds(wholes: seq<PhysicalDisk>, parts: seq<RawMedia>, m: RawMedia)
    ensures Attach(WithChildren(wholes, parts), m) == WithChildren(wholes, parts + [m])
  {
    var before, after := WithChildren(wholes, parts), WithChildren(wholes, parts + [m]);
    FirstNamedKeepsNames(before, wholes, WholeDiskOf(m.bsd));
    forall k | 0 <= k < |wholes| ensures Attach(before, m)[k] == after[k] {
      ChildrenSnoc(wholes, parts, m, k);
    }
  }

  lemma {:induction false} AttachNext(wholes: seq<PhysicalDisk>, parts: seq<RawMedia>, i: nat)
    requires i < |parts|
    ensures Attach(WithChildren(wholes, parts[..i]), parts[i]) == WithChildren(wholes, parts[..i + 1])
  {
    assert parts[..i + 1] == parts[..i] + [parts[i]];
    AttachAdds(wholes, parts[..i], parts[i]);
  }

  /** Hangs each partition below its parent. */
  method Group(wholes: seq<PhysicalDisk>, parts: seq<RawMedia>) returns (disks: seq<PhysicalDisk>)
    requires forall k :: 0 <= k < |wholes| ==> wholes[k].partitions == []
    ensures disks == WithChildren(wholes, parts)
  {
    disks := wholes;
    NoChildrenYet(wholes);
    for i := 0 to |parts|
      invariant disks == WithChildren(wholes, parts[..i])
    {
      AttachNext(wholes, parts, i);
      disks := Attach(disks, parts[i]);
    }
    assert parts[..|parts|] == parts;
  }

  method SortPartitions(grouped: seq<PhysicalDisk>) returns (disks: seq<PhysicalDisk>)
    ensures disks == Apply(InOffsetOrder, grouped)
  {
    disks := grouped;
    for i := 0 to |disks|
      invariant |disks| == |grouped|
      invariant forall k :: 0 <= k < |disks| ==>
        disks[k] == if k < i then InOffsetOrder(grouped[k]) else grouped[k]
    {
      disks := disks[i := disks[i].(partitions := StableSort(disks[i].partitions, StartsNoLater))];
    }
  }

  method Assemble(media: seq<RawMedia>) returns (disks: seq<PhysicalDisk>)
    ensures Assembles(media, disks)
    ensures disks == Assembled(media)
  {
    disks := WholeDisks(media);
    disks := Group(disks, Filter(media, IsPart));
    disks := SortPartitions(disks);
    disks := StableSort(disks, IndexedNoLater);
    AssembledAsDescribed(media);
  }

  lemma {:induction false} NoChildrenYet(wholes: seq<PhysicalDisk>)
    requires forall k :: 0 <= k < |wholes| ==> wholes[k].partitions == []
    ensures WithChildren(wholes, []) == wholes
  {
  }

  // ----- nothing lost, nothing added -----

  function Bare(d: PhysicalDisk): PhysicalDisk {
    d.(partitions := [])
  }

  /** All partitions of a list of disks. */
  function AllPartitions(disks: seq<PhysicalDisk>): multiset<Partition> {
    if disks == [] then multiset{} else multiset(disks[0].partitions) + AllPartitions(disks[1..])
  }

  predicate HasParent(media: seq<RawMedia>, m: RawMedia) {
    exists w :: w in media && w.whole && w.bsd == WholeDiskOf(m.bsd)
  }

  function Housed(disks: seq<PhysicalDisk>): RawMedia -> bool {
    (m: RawMedia) => FirstNamed(disks, WholeDiskOf(m.bsd)) < |disks|
  }

  lemma {:induction false} AllPartitionsUpdate(disks: seq<PhysicalDisk>, k: nat, p: Partition)
    requires k < |disks|
    ensures AllPartitions(disks[k := disks[k].(partitions := disks[k].partitions + [p])])
         == AllPartitions(disks) + multiset{p}
  {
    var u := disks[k := disks[k].(partitions := disks[k].partitions + [p])];
    if k == 0 {
      assert u[1..] == disks[1..];
    } else {
      AllPartitionsUpdate(disks[1..], k - 1, p);
      assert u[1..] == disks[1..][k - 1 := u[k]];
    }
  }

  lemma {:induction false} AttachConserves(disks: seq<PhysicalDisk>, m: RawMedia)
    ensures AllPartitions(Attach(disks, m))
         == AllPartitions(disks) + (if Housed(disks)(m) then multiset{PartitionOf(m)} else multiset{})
  {
    var k := FirstNamed(disks, WholeDiskOf(m.bsd));
    if k < |disks| {
      AllPartitionsUpdate(disks, k, PartitionOf(m));
    }
  }

  /** The partitions of the parts that have a disk among `disks`. */
  function Kept(disks: seq<PhysicalDisk>, parts: seq<RawMedia>): seq<Partition> {
    Apply(PartitionOf, Filter(parts, Housed(disks)))
  }

  lemma {:induction false} KeptSnoc(disks: seq<PhysicalDisk>, parts: seq<RawMedia>, m: RawMedia)
    ensures Kept(disks, parts + [m]) == Kept(disks, parts) + (if Housed(disks)(m) then [PartitionOf(m)] else [])
  {
    FilterConcat(parts, [m], Housed(disks));
  }

  lemma {:induction false} SameHouses(wholes: seq<PhysicalDisk>, parts: seq<RawMedia>, m: RawMedia)
    ensures Housed(WithChildren(wholes, parts))(m) == Housed(wholes)(m)
  {
    FirstNamedKeepsNames(WithChildren(wholes, parts), wholes, WholeDiskOf(m.bsd));
  }

  /** Grouping neither loses nor adds a partition. */
  ghost predicate GroupsAll(wholes: seq<PhysicalDisk>, parts: seq<RawMedia>) {
    AllPartitions(WithChildren(wholes, parts)) == multiset(Kept(wholes, parts))
  }

  lemma {:induction false} GroupingStep(wholes: seq<PhysicalDisk>, parts: seq<RawMedia>, m: RawMedia)
    requires GroupsAll(wholes, parts)
    ensures GroupsAll(wholes, parts + [m])
  {
    AttachAdds(wholes, parts, m);
    AttachConserves(WithChildren(wholes, parts), m);
    SameHouses(wholes, parts, m);
    KeptSnoc(wholes, parts, m);
  }

  lemma {:induction false} NothingGrouped(wholes: seq<PhysicalDisk>)
    requires forall k :: 0 <= k < |wholes| ==> wholes[k].partitions == []
    ensures GroupsAll(wholes, [])
  {
    NoChildrenYet(wholes);
    NoPartitions(wholes);
  }

  lemma {:induction false} GroupingConserves(wholes: seq<PhysicalDisk>, parts: seq<RawMedia>)
    requires forall k :: 0 <= k < |wholes| ==> wholes[k].partitions == []
    ensures GroupsAll(wholes, parts)
  {
    if parts == [] {
      NothingGrouped(wholes);
    } else {
      SplitLast(parts);
      GroupingConserves(wholes, parts[..|parts| - 1]);
      GroupingStep(wholes, parts[..|parts| - 1], parts[|parts| - 1]);
    }
  }

  lemma {:induction false} NoPartitions(disks: seq<PhysicalDisk>)
    requires forall k :: 0 <= k < |disks| ==> disks[k].partitions == []
    ensures AllPartitions(disks) == multiset{}
  {
    if disks != [] {
      NoPartitions(disks[1..]);
    }
  }

  lemma {:induction false} AllPartitionsOfImages(a: seq<PhysicalDisk>, b: seq<PhysicalDisk>)
    requires |a| == |b| && forall k :: 0 <= k < |a| ==> multiset(a[k].partitions) == multiset(b[k].partitions)
    ensures AllPartitions(a) == AllPartitions(b)
  {
    if a != [] {
      AllPartitionsOfImages(a[1..], b[1..]);
    }
  }

  lemma {:induction false} AllPartitionsRemove(b: seq<PhysicalDisk>, k: nat)
    requires k < |b|
    ensures AllPartitions(b) == multiset(b[k].partitions) + AllPartitions(b[..k] + b[k + 1..])
  {
    var rest := b[..k] + b[k + 1..];
    if k == 0 {
      assert rest == b[1..];
    } else {
      AllPartitionsRemove(b[1..], k - 1);
      assert rest[1..] == b[1..][..k - 1] + b[1..][k..];
    }
  }

  lemma {:induction false} AllPartitionsPermute(a: seq<PhysicalDisk>, b: seq<PhysicalDisk>)
    requires multiset(a) == multiset(b)
    ensures AllPartitions(a) == AllPartitions(b)
  {
    if a == [] {
      assert |multiset(b)| == 0;
    } else {
      assert a[0] in multiset(b);
      var k :| 0 <= k < |b| && b[k] == a[0];
      RemoveSame(a, b, k);
      AllPartitionsPermute(a[1..], b[..k] + b[k + 1..]);
      AllPartitionsRemove(b, k);
    }
  }

  lemma {:induction false} HousedMeansParent(media: seq<RawMedia>, m: RawMedia)
    ensures Housed(WholeDisks(media))(m) <==> HasParent(media, m)
  {
    var wholes := Filter(media, IsWhole);
    FilterMembers(media, IsWhole);
    var disks := WholeDisks(media);
    var k := FirstNamed(disks, WholeDiskOf(m.bsd));
    if k < |disks| {
      assert wholes[k] in wholes && wholes[k].bsd == WholeDiskOf(m.bsd);
    }
    if HasParent(media, m) {
      var w :| w in media && w.whole && w.bsd == WholeDiskOf(m.bsd);
      assert IsWhole(w) && w in wholes;
      var j :| 0 <= j < |wholes| && wholes[j] == w;
      assert disks[j].name == WholeDiskOf(m.bsd);
    }
  }

  function ParentedIn(media: seq<RawMedia>): RawMedia -> bool {
    (m: RawMedia) => IsPart(m) && HasParent(media, m)
  }

  /** Every partition whose whole disk is among the media appears below exactly one disk,
      and nothing else appears; every whole disk appears once. */
  lemma {:induction false} AssembleConserves(media: seq<RawMedia>)
    ensures AllPartitions(Assembled(media)) == multiset(Apply(PartitionOf, Filter(media, ParentedIn(media))))
    ensures multiset(Apply(Bare, Assembled(media))) == multiset(WholeDisks(media))
  {
    var wholes, parts := WholeDisks(media), Filter(media, IsPart);
    var grouped := WithChildren(wholes, parts);
    var sorted := Apply(InOffsetOrder, grouped);
    GroupingConserves(wholes, parts);
    AllPartitionsOfImages(sorted, grouped);
    AllPartitionsPermute(Assembled(media), sorted);
    ImagesPermute(Assembled(media), sorted, Apply(Bare, Assembled(media)), Apply(Bare, sorted));
    assert Apply(Bare, sorted) == wholes;
    forall m ensures Housed(wholes)(m) == HasParent(media, m) {
      HousedMeansParent(media, m);
    }
    FilterTwice(media, IsPart, Housed(wholes), ParentedIn(media));
  }

  // ----- order -----

  predicate InOrder(ps: seq<Partition>) {
    forall i, j :: 0 <= i < j < |ps| ==> ps[i].startOffset <= ps[j].startOffset
  }

  lemma {:induction false} GroupsAreSorted(media: seq<RawMedia>, j: nat)
    requires j < |Grouped(media)|
    ensures InOrder(Grouped(media)[j].partitions)
  {
    var ps := Grouped(media)[j].partitions;
    StartsNoLaterOrders();
    SortSorts(WithChildren(WholeDisks(media), Filter(media, IsPart))[j].partitions, StartsNoLater);
    forall i, j | 0 <= i < j < |ps| ensures ps[i].startOffset <= ps[j].startOffset {
      assert StartsNoLater(ps[i], ps[j]);
    }
  }

  lemma {:induction false} IndexOrders()
    ensures TotalPreorder(IndexedNoLater)
  {
  }

  /** Disks come in order of their number, and each one's partitions in order of their offset. */
  lemma {:induction false} AssembleSorts(media: seq<RawMedia>)
    ensures forall i, j :: 0 <= i < j < |Assembled(media)| ==>
      DiskIndex(Assembled(media)[i].name) <= DiskIndex(Assembled(media)[j].name)
    ensures forall k :: 0 <= k < |Assembled(media)| ==> InOrder(Assembled(media)[k].partitions)
  {
    IndexOrders();
    SortSorts(Grouped(media), IndexedNoLater);
    forall i, j | 0 <= i < j < |Assembled(media)|
      ensures DiskIndex(Assembled(media)[i].name) <= DiskIndex(Assembled(media)[j].name)
    {
      assert IndexedNoLater(Assembled(media)[i], Assembled(media)[j]);
    }
    forall k | 0 <= k < |Assembled(media)| ensures InOrder(Assembled(media)[k].partitions) {
      var j := PlaceIn(Assembled(media), Grouped(media), k);
      GroupsAreSorted(media, j);
    }
  }

  // ----- who owns what -----

  function NamedBelow(name: string): RawMedia -> bool {
    (m: RawMedia) => IsPart(m) && WholeDiskOf(m.bsd) == name
  }

  /** The partitions below a name, in offset order. */
  function SortedBelow(media: seq<RawMedia>, name: string): seq<Partition> {
    StableSort(Apply(PartitionOf, Filter(media, NamedBelow(name))), StartsNoLater)
  }

  /** The first disk of a name owns what is named below it. */
  lemma {:induction false} FirstOwnsAll(disks: seq<PhysicalDisk>, media: seq<RawMedia>, k: nat)
    requires k < |disks| && FirstNamed(disks, disks[k].name) == k
    ensures Children(disks, Filter(media, IsPart), k) == Apply(PartitionOf, Filter(media, NamedBelow(disks[k].name)))
  {
    FilterTwice(media, IsPart, BelongsTo(disks, k), NamedBelow(disks[k].name));
  }

  /** Any other disk of that name owns nothing. */
  lemma {:induction false} OthersOwnNothing(disks: seq<PhysicalDisk>, parts: seq<RawMedia>, k: nat)
    requires k < |disks| && FirstNamed(disks, disks[k].name) != k
    ensures Children(disks, parts, k) == []
  {
    FilterEmpty(parts, BelongsTo(disks, k));
  }

  lemma {:induction false} GroupedAt(media: seq<RawMedia>, k: nat)
    requires k < |Grouped(media)|
    ensures var disks := WholeDisks(media);
            Grouped(media)[k] == disks[k].(partitions := if FirstNamed(disks, disks[k].name) == k
                                                         then SortedBelow(media, disks[k].name) else [])
  {
    var disks := WholeDisks(media);
    if FirstNamed(disks, disks[k].name) == k {
      FirstOwnsAll(disks, media, k);
    } else {
      OthersOwnNothing(disks, Filter(media, IsPart), k);
    }
  }

  lemma {:induction false} BelowIsNamed(media: seq<RawMedia>, name: string)
    ensures forall p :: p in SortedBelow(media, name) ==> WholeDiskOf(p.name) == name
  {
    var below := Filter(media, NamedBelow(name));
    FilterMembers(media, NamedBelow(name));
    forall p | p in SortedBelow(media, name) ensures WholeDiskOf(p.name) == name {
      assert p in multiset(Apply(PartitionOf, below));
      var i :| 0 <= i < |below| && Apply(PartitionOf, below)[i] == p;
      assert below[i] in below;
    }
  }

  /** Every partition hangs below the disk its name points at; and a disk that has any has all
      that are named below it, in offset order. */
  lemma {:induction false} OwnNamesakes(media: seq<RawMedia>, k: nat)
    requires k < |Assembled(media)|
    ensures var d := Assembled(media)[k];
            && (forall p :: p in d.partitions ==> WholeDiskOf(p.name) == d.name)
            && (d.partitions == [] || d.partitions == SortedBelow(media, d.name))
  {
    var j := PlaceIn(Assembled(media), Grouped(media), k);
    GroupedAt(media, j);
    BelowIsNamed(media, WholeDisks(media)[j].name);
  }

  // ----- ties -----

  /** Media numbered like disk c. */
  function NumberedLike(c: PhysicalDisk): RawMedia -> bool {
    (m: RawMedia) => DiskIndex(m.bsd) == DiskIndex(c.name)
  }

  /** Whole media whose disks tie with c. */
  function WholeTied(c: PhysicalDisk): RawMedia -> bool {
    (m: RawMedia) => IsWhole(m) && NumberedLike(c)(m)
  }

  lemma {:induction false} SameNumberTies(c: PhysicalDisk, d: PhysicalDisk)
    ensures ClassOf(c, IndexedNoLater)(d) <==> DiskIndex(d.name) == DiskIndex(c.name)
  {
    assert ClassOf(c, IndexedNoLater)(d) == (IndexedNoLater(c, d) && IndexedNoLater(d, c));
  }

  lemma {:induction false} BareGroup(media: seq<RawMedia>, p: nat)
    requires p < |Grouped(media)|
    ensures Bare(Grouped(media)[p]) == WholeDisks(media)[p]
    ensures Grouped(media)[p].name == WholeDisks(media)[p].name
  {
  }

  lemma {:induction false} BareGroups(media: seq<RawMedia>)
    ensures Apply(Bare, Grouped(media)) == WholeDisks(media)
  {
    forall p | 0 <= p < |Grouped(media)| ensures Bare(Grouped(media)[p]) == WholeDisks(media)[p] {
      BareGroup(media, p);
    }
  }

  lemma {:induction false} TiedWholes(media: seq<RawMedia>, c: PhysicalDisk)
    ensures Filter(WholeDisks(media), ClassOf(c, IndexedNoLater)) == Apply(WholeDisk, Filter(media, WholeTied(c)))
  {
    forall m: RawMedia ensures ClassOf(c, IndexedNoLater)(WholeDisk(m)) == NumberedLike(c)(m) {
      SameNumberTies(c, WholeDisk(m));
    }
    FilterImages(Filter(media, IsWhole), WholeDisk, NumberedLike(c), ClassOf(c, IndexedNoLater));
    FilterTwice(media, IsWhole, NumberedLike(c), WholeTied(c));
  }

  lemma {:induction false} TiedGroups(media: seq<RawMedia>, c: PhysicalDisk)
    ensures Apply(Bare, Filter(Grouped(media), ClassOf(c, IndexedNoLater)))
         == Filter(WholeDisks(media), ClassOf(c, IndexedNoLater))
  {
    BareGroups(media);
    forall d: PhysicalDisk ensures ClassOf(c, IndexedNoLater)(Bare(d)) == ClassOf(c, IndexedNoLater)(d) {
      SameNumberTies(c, d);
      SameNumberTies(c, Bare(d));
    }
    FilterImages(Grouped(media), Bare, ClassOf(c, IndexedNoLater), ClassOf(c, IndexedNoLater));
  }

  /** Disks with the same number keep the order their media are listed in. */
  lemma {:induction false} TiedDisksKeepOrder(media: seq<RawMedia>, c: PhysicalDisk)
    ensures Apply(Bare, Filter(Assembled(media), ClassOf(c, IndexedNoLater)))
         == Apply(WholeDisk, Filter(media, WholeTied(c)))
  {
    SortIsStable(Grouped(media), IndexedNoLater, c);
    TiedWholes(media, c);
    TiedGroups(media, c);
  }

  /** Media below a name whose partitions start where q does. */
  function PartTied(name: string, q: Partition): RawMedia -> bool {
    (m: RawMedia) => NamedBelow(name)(m) && m.base == q.startOffset
  }

  lemma {:induction false} TiedBelow(media: seq<RawMedia>, name: string, q: Partition)
    ensures Filter(SortedBelow(media, name), ClassOf(q, StartsNoLater))
         == Apply(PartitionOf, Filter(media, PartTied(name, q)))
  {
    var below, same := Filter(media, NamedBelow(name)), ClassOf(q, StartsNoLater);
    var tied := (m: RawMedia) => m.base == q.startOffset;
    StartsNoLaterOrders();
    SortIsStable(Apply(PartitionOf, below), StartsNoLater, q);
    FilterImages(below, PartitionOf, tied, same);
    FilterTwice(media, NamedBelow(name), tied, PartTied(name, q));
  }

  /** Partitions of a disk that start at the same byte keep the order their media are listed in. */
  lemma {:induction false} TiedPartitionsKeepOrder(media: seq<RawMedia>, k: nat, q: Partition)
    requires k < |Assembled(media)| && Assembled(media)[k].partitions != []
    ensures Filter(Assembled(media)[k].partitions, ClassOf(q, StartsNoLater))
         == Apply(PartitionOf, Filter(media, PartTied(Assembled(media)[k].name, q)))
  {
    OwnNamesakes(media, k);
    TiedBelow(media, Assembled(media)[k].name, q);
  }

  // ----- what is assembled, without saying how -----

  /** The disk is what the registry describes as m, apart from its partitions. */
  predicate ShowsWhole(d: PhysicalDisk, m: RawMedia) {
    && d.name == m.bsd && d.devicePath == "/dev/" + m.bsd
    && d.sizeBytes == m.size && d.logicalSectorSize == m.block && d.physicalSectorSize == m.block
    && d.model == None && d.serial == None
    && d.removable == m.removable && d.readOnly == !m.writable
    && d.synthesized == ("AppleAPFS" <= m.ioClass)
  }

  /** The partition is what the registry describes as m. */
  predicate ShowsPart(p: Partition, m: RawMedia) {
    && p.name == m.bsd && p.devicePath == "/dev/" + m.bsd
    && p.startOffset == m.base && p.sizeBytes == m.size
    && p.partitionType == (if m.content == "" then None else Some(m.content))
    && p.mountPoint == None && p.filesystem == None && p.volumeLabel == None
  }

  predicate NumberedNoLater(m: RawMedia, n: RawMedia) {
    DiskIndex(m.bsd) <= DiskIndex(n.bsd)
  }

  predicate BasedNoLater(m: RawMedia, n: RawMedia) {
    m.base <= n.base
  }

  lemma {:induction false} WholeMembers(media: seq<RawMedia>)
    ensures forall m :: m in Filter(media, IsWhole) <==> m in media && m.whole
  {
    FilterMembers(media, IsWhole);
    forall m ensures m in Filter(media, IsWhole) <==> m in media && m.whole {
      assert IsWhole(m) == m.whole;
    }
  }

  lemma {:induction false} PartMembers(media: seq<RawMedia>, name: string)
    ensures forall m :: m in Filter(media, NamedBelow(name)) <==> m in media && !m.whole && WholeDiskOf(m.bsd) == name
  {
    FilterMembers(media, NamedBelow(name));
    forall m
      ensures m in Filter(media, NamedBelow(name)) <==> m in media && !m.whole && WholeDiskOf(m.bsd) == name
    {
      assert NamedBelow(name)(m) == (IsPart(m) && WholeDiskOf(m.bsd) == name);
    }
  }

  /** The whole media, by number and then as listed. */
  function WholesInOrder(media: seq<RawMedia>): (ms: seq<RawMedia>)
    ensures forall m :: m in ms <==> m in media && m.whole
  {
    WholeMembers(media);
    SortMembers(Filter(media, IsWhole), NumberedNoLater);
    StableSort(Filter(media, IsWhole), NumberedNoLater)
  }

  /** The partition media below a name, by offset and then as listed. */
  function PartsInOrder(media: seq<RawMedia>, name: string): (ms: seq<RawMedia>)
    ensures forall m :: m in ms <==> m in media && !m.whole && WholeDiskOf(m.bsd) == name
  {
    PartMembers(media, name);
    SortMembers(Filter(media, NamedBelow(name)), BasedNoLater);
    StableSort(Filter(media, NamedBelow(name)), BasedNoLater)
  }

  predicate NameIn(disks: seq<PhysicalDisk>, name: string) {
    exists j :: 0 <= j < |disks| && disks[j].name == name
  }

  /** Every name's first disk has all that is named below it, and any other disk nothing. */
  ghost predicate HasItsParts(media: seq<RawMedia>, out: seq<PhysicalDisk>, k: nat)
    requires k < |out|
  {
    if NameIn(out[..k], out[k].name) then out[k].partitions == []
    else
      var parts := PartsInOrder(media, out[k].name);
      && |out[k].partitions| == |parts|
      && forall i :: 0 <= i < |parts| ==> ShowsPart(out[k].partitions[i], parts[i])
  }

  /** The disks are those of the whole media, in order, with their partitions. */
  ghost predicate Assembles(media: seq<RawMedia>, out: seq<PhysicalDisk>) {
    && |out| == |WholesInOrder(media)|
    && forall k :: 0 <= k < |out| ==> ShowsWhole(out[k], WholesInOrder(media)[k]) && HasItsParts(media, out, k)
  }

  function WholeMade(): (RawMedia, PhysicalDisk) -> bool {
    (m: RawMedia, d: PhysicalDisk) => ShowsWhole(d, m)
  }

  function PartMade(): (RawMedia, Partition) -> bool {
    (m: RawMedia, p: Partition) => ShowsPart(p, m)
  }

  lemma {:induction false} WholesOrderedAlike()
    ensures OrderedAlike(WholeMade(), NumberedNoLater, IndexedNoLater)
  {
    forall m, n, d, e | WholeMade()(m, d) && WholeMade()(n, e) ensures NumberedNoLater(m, n) == IndexedNoLater(d, e) {
      assert ShowsWhole(d, m) && ShowsWhole(e, n);
    }
  }

  lemma {:induction false} PartsOrderedAlike()
    ensures OrderedAlike(PartMade(), BasedNoLater, StartsNoLater)
  {
    forall m, n, p, q | PartMade()(m, p) && PartMade()(n, q) ensures BasedNoLater(m, n) == StartsNoLater(p, q) {
      assert ShowsPart(p, m) && ShowsPart(q, n);
    }
  }

  lemma {:induction false} WholesAreShown(media: seq<RawMedia>)
    ensures Related(WholesInOrder(media), Assembled(media), WholeMade())
  {
    var wholes := Filter(media, IsWhole);
    forall i | 0 <= i < |wholes| ensures WholeMade()(wholes[i], Grouped(media)[i]) {
      BareGroup(media, i);
      assert ShowsWhole(WholeDisks(media)[i], wholes[i]);
      assert ShowsWhole(Bare(Grouped(media)[i]), wholes[i]);
    }
    WholesOrderedAlike();
    SortRelated(wholes, Grouped(media), WholeMade(), NumberedNoLater, IndexedNoLater);
  }

  lemma {:induction false} PartsAreShown(media: seq<RawMedia>, name: string)
    ensures Related(PartsInOrder(media, name), SortedBelow(media, name), PartMade())
  {
    var below := Filter(media, NamedBelow(name));
    forall i | 0 <= i < |below| ensures PartMade()(below[i], Apply(PartitionOf, below)[i]) {
      assert ShowsPart(PartitionOf(below[i]), below[i]);
    }
    PartsOrderedAlike();
    SortRelated(below, Apply(PartitionOf, below), PartMade(), BasedNoLater, StartsNoLater);
  }

  /** Where the disk at position k of the result stood before sorting: behind the same disks of
      its number. */
  lemma {:induction false} PlaceBeforeSorting(media: seq<RawMedia>, k: nat, c: PhysicalDisk) returns (p: nat)
    requires k < |Assembled(media)| && c == Assembled(media)[k]
    ensures p < |Grouped(media)| && Grouped(media)[p] == c
    ensures Filter(Grouped(media)[..p], ClassOf(c, IndexedNoLater))
         == Filter(Assembled(media)[..k], ClassOf(c, IndexedNoLater))
  {
    var same := ClassOf(c, IndexedNoLater);
    SameNumberTies(c, c);
    SortIsStable(Grouped(media), IndexedNoLater, c);
    FilterAt(Assembled(media), same, k);
    var i := |Filter(Assembled(media)[..k], same)|;
    p := FilterPosition(Grouped(media), same, i);
    FilterPrefix(Grouped(media), same, p);
    FilterPrefix(Assembled(media), same, k);
    var all := Filter(Grouped(media), same);
    assert Filter(Grouped(media)[..p], same) == all[..i] == Filter(Assembled(media)[..k], same);
  }

  lemma {:induction false} NameAmongTies(disks: seq<PhysicalDisk>, c: PhysicalDisk)
    ensures NameIn(disks, c.name) <==> NameIn(Filter(disks, ClassOf(c, IndexedNoLater)), c.name)
  {
    var ties := Filter(disks, ClassOf(c, IndexedNoLater));
    FilterMembers(disks, ClassOf(c, IndexedNoLater));
    if j :| 0 <= j < |disks| && disks[j].name == c.name {
      SameNumberTies(c, disks[j]);
      assert disks[j] in ties;
    }
    if j :| 0 <= j < |ties| && ties[j].name == c.name {
      assert ties[j] in ties && ties[j] in disks;
    }
  }

  lemma {:induction false} FirstBefore(media: seq<RawMedia>, p: nat)
    requires p < |Grouped(media)|
    ensures NameIn(Grouped(media)[..p], Grouped(media)[p].name)
       <==> FirstNamed(WholeDisks(media), Grouped(media)[p].name) != p
  {
    var disks, before := WholeDisks(media), Grouped(media)[..p];
    BareGroup(media, p);
    FirstIsHere(disks, disks[p].name, p);
    forall j | 0 <= j < p ensures before[j].name == disks[j].name {
      BareGroup(media, j);
    }
  }

  lemma {:induction false} FirstOfItsName(media: seq<RawMedia>, k: nat, p: nat)
    requires k < |Assembled(media)| && p < |Grouped(media)| && Grouped(media)[p] == Assembled(media)[k]
    requires Filter(Grouped(media)[..p], ClassOf(Assembled(media)[k], IndexedNoLater))
          == Filter(Assembled(media)[..k], ClassOf(Assembled(media)[k], IndexedNoLater))
    ensures NameIn(Assembled(media)[..k], Assembled(media)[k].name)
       <==> FirstNamed(WholeDisks(media), Grouped(media)[p].name) != p
  {
    NameAmongTies(Grouped(media)[..p], Assembled(media)[k]);
    NameAmongTies(Assembled(media)[..k], Assembled(media)[k]);
    FirstBefore(media, p);
  }

  lemma {:induction false} PartsFollow(media: seq<RawMedia>, k: nat)
    requires k < |Assembled(media)|
    ensures HasItsParts(media, Assembled(media), k)
  {
    var d := Assembled(media)[k];
    var p := PlaceBeforeSorting(media, k, d);
    FirstOfItsName(media, k, p);
    GroupedAt(media, p);
    BareGroup(media, p);
    PartsAreShown(media, d.name);
    forall i | 0 <= i < |SortedBelow(media, d.name)|
      ensures ShowsPart(SortedBelow(media, d.name)[i], PartsInOrder(media, d.name)[i])
    {
      assert PartMade()(PartsInOrder(media, d.name)[i], SortedBelow(media, d.name)[i]);
    }
  }

  /** What is assembled is all of this. */
  lemma {:induction false} AssembledAsDescribed(media: seq<RawMedia>)
    ensures Assembles(media, Assembled(media))
  {
    WholesAreShown(media);
    forall k | 0 <= k < |Assembled(media)|
      ensures ShowsWhole(Assembled(media)[k], WholesInOrder(media)[k]) && HasItsParts(media, Assembled(media), k)
    {
      assert WholeMade()(WholesInOrder(media)[k], Assembled(media)[k]);
      PartsFollow(media, k);
    }
  }

  predicate SameNames(a: seq<PhysicalDisk>, b: seq<PhysicalDisk>) {
    |a| == |b| && forall k :: 0 <= k < |a| ==> a[k].name == b[k].name
  }

  lemma {:induction false} NamesInBoth(a: seq<PhysicalDisk>, b: seq<PhysicalDisk>, k: nat, name: string)
    requires SameNames(a, b) && k <= |a|
    ensures NameIn(a[..k], name) <==> NameIn(b[..k], name)
  {
    if j :| 0 <= j < k && a[..k][j].name == name {
      assert b[..k][j].name == name;
    }
    if j :| 0 <= j < k && b[..k][j].name == name {
      assert a[..k][j].name == name;
    }
  }

  lemma {:induction false} PartsAgree(media: seq<RawMedia>, a: seq<PhysicalDisk>, b: seq<PhysicalDisk>, k: nat)
    requires SameNames(a, b) && k < |a| && HasItsParts(media, a, k) && HasItsParts(media, b, k)
    ensures a[k].partitions == b[k].partitions
  {
    NamesInBoth(a, b, k, a[k].name);
    if !NameIn(a[..k], a[k].name) {
      var parts := PartsInOrder(media, a[k].name);
      forall i | 0 <= i < |parts| ensures a[k].partitions[i] == b[k].partitions[i] {
        assert ShowsPart(a[k].partitions[i], parts[i]) && ShowsPart(b[k].partitions[i], parts[i]);
      }
    }
  }

  /** And nothing else is. */
  lemma {:induction false} AssemblyIsUnique(media: seq<RawMedia>, a: seq<PhysicalDisk>, b: seq<PhysicalDisk>)
    requires Assembles(media, a) && Assembles(media, b)
    ensures a == b
  {
    var wholes := WholesInOrder(media);
    forall k | 0 <= k < |a| ensures a[k].name == b[k].name {
      assert ShowsWhole(a[k], wholes[k]) && ShowsWhole(b[k], wholes[k]);
    }
    forall k | 0 <= k < |a| ensures a[k] == b[k] {
      assert ShowsWhole(a[k], wholes[k]) && ShowsWhole(b[k], wholes[k]);
      PartsAgree(media, a, b, k);
    }
  }

  // ----- when the order of the media does not matter -----

  /** Whole disks that tie and are not twins. */
  predicate WholesDiffer(m: RawMedia, n: RawMedia) {
    m.whole && n.whole && DiskIndex(m.bsd) == DiskIndex(n.bsd) && WholeDisk(m) != WholeDisk(n)
  }

  /** Partitions of one disk that tie and are not twins. */
  predicate PartsDiffer(m: RawMedia, n: RawMedia) {
    && !m.whole && !n.whole && WholeDiskOf(m.bsd) == WholeDiskOf(n.bsd) && m.base == n.base
    && PartitionOf(m) != PartitionOf(n)
  }

  /** Media tie only if they are shown the same: whole disks with one number, and partitions
      of one disk that start at the same byte. */
  ghost predicate OnlyTwinsTie(media: seq<RawMedia>) {
    && (forall m, n :: m in media && n in media ==> !WholesDiffer(m, n))
    && (forall m, n :: m in media && n in media && HasParent(media, m) ==> !PartsDiffer(m, n))
  }

  lemma {:induction false} SameMembers(a: seq<RawMedia>, b: seq<RawMedia>)
    requires multiset(a) == multiset(b)
    ensures forall m :: m in a <==> m in b
  {
    assert forall m :: m in a <==> m in multiset(a);
    assert forall m :: m in b <==> m in multiset(b);
  }

  lemma {:induction false} TwinsPermute(a: seq<RawMedia>, b: seq<RawMedia>)
    requires OnlyTwinsTie(a) && multiset(a) == multiset(b)
    ensures OnlyTwinsTie(b)
  {
    SameMembers(a, b);
    assert forall m :: HasParent(a, m) == HasParent(b, m);
  }

  lemma {:induction false} WholesPermute(a: seq<RawMedia>, b: seq<RawMedia>)
    requires multiset(a) == multiset(b)
    ensures multiset(WholeDisks(a)) == multiset(WholeDisks(b))
  {
    FilterPermutes(a, b, IsWhole);
    ImagesPermute(Filter(a, IsWhole), Filter(b, IsWhole), WholeDisks(a), WholeDisks(b));
  }

  lemma {:induction false} WholeComesFrom(media: seq<RawMedia>, k: nat) returns (m: RawMedia)
    requires k < |WholeDisks(media)|
    ensures m in media && m.whole && WholeDisk(m) == WholeDisks(media)[k]
  {
    FilterMembers(media, IsWhole);
    m := Filter(media, IsWhole)[k];
    assert m in Filter(media, IsWhole) && IsWhole(m);
  }

  lemma {:induction false} TiedWholesAreTwins(media: seq<RawMedia>, j: nat, k: nat)
    requires OnlyTwinsTie(media) && j < |WholeDisks(media)| && k < |WholeDisks(media)|
    requires DiskIndex(WholeDisks(media)[j].name) == DiskIndex(WholeDisks(media)[k].name)
    ensures WholeDisks(media)[j] == WholeDisks(media)[k]
  {
    var m := WholeComesFrom(media, j);
    var n := WholeComesFrom(media, k);
  }

  lemma {:induction false} TiedBelowAreTwins(media: seq<RawMedia>, w: RawMedia, m: RawMedia, n: RawMedia)
    requires OnlyTwinsTie(media) && w in media && w.whole
    requires m in Filter(media, NamedBelow(w.bsd)) && n in Filter(media, NamedBelow(w.bsd)) && m.base == n.base
    ensures PartitionOf(m) == PartitionOf(n)
  {
    FilterMembers(media, NamedBelow(w.bsd));
    assert HasParent(media, m);
    assert !PartsDiffer(m, n);
  }

  lemma {:induction false} SortedBelowIgnoresOrder(a: seq<RawMedia>, b: seq<RawMedia>, w: RawMedia)
    requires OnlyTwinsTie(a) && multiset(a) == multiset(b) && w in a && w.whole
    ensures SortedBelow(a, w.bsd) == SortedBelow(b, w.bsd)
  {
    var x, y := Filter(a, NamedBelow(w.bsd)), Filter(b, NamedBelow(w.bsd));
    FilterPermutes(a, b, NamedBelow(w.bsd));
    ImagesPermute(x, y, Apply(PartitionOf, x), Apply(PartitionOf, y));
    forall i, j | 0 <= i < j < |x| && x[i].base == x[j].base ensures PartitionOf(x[i]) == PartitionOf(x[j]) {
      TiedBelowAreTwins(a, w, x[i], x[j]);
    }
    StartsNoLaterOrders();
    SortIgnoresOrder(Apply(PartitionOf, x), Apply(PartitionOf, y), StartsNoLater);
  }

  /** Of twin disks the first has the partitions. */
  function Twin(media: seq<RawMedia>, w: PhysicalDisk, i: nat): PhysicalDisk {
    w.(partitions := if i == 0 then SortedBelow(media, w.name) else [])
  }

  /** w is one of the whole disks, and ties with c. */
  ghost predicate IsTied(media: seq<RawMedia>, c: PhysicalDisk, w: PhysicalDisk) {
    w in WholeDisks(media) && DiskIndex(w.name) == DiskIndex(c.name)
  }

  lemma {:induction false} TiedByName(media: seq<RawMedia>, c: PhysicalDisk, w: PhysicalDisk, p: nat)
    requires OnlyTwinsTie(media) && IsTied(media, c, w) && p < |Grouped(media)|
    ensures ClassOf(c, IndexedNoLater)(Grouped(media)[p]) <==> WholeDisks(media)[p].name == w.name
    ensures ClassOf(c, IndexedNoLater)(Grouped(media)[p]) ==> WholeDisks(media)[p] == w
  {
    BareGroup(media, p);
    SameNumberTies(c, Grouped(media)[p]);
    var k :| 0 <= k < |WholeDisks(media)| && WholeDisks(media)[k] == w;
    if DiskIndex(WholeDisks(media)[p].name) == DiskIndex(WholeDisks(media)[k].name) {
      TiedWholesAreTwins(media, p, k);
    }
  }

  lemma {:induction false} FirstIsHere(disks: seq<PhysicalDisk>, name: string, p: nat)
    requires p < |disks| && disks[p].name == name
    ensures FirstNamed(disks, name) == p <==> forall i :: 0 <= i < p ==> disks[i].name != name
  {
  }

  lemma {:induction false} FirstTied(media: seq<RawMedia>, c: PhysicalDisk, w: PhysicalDisk, p: nat)
    requires OnlyTwinsTie(media) && IsTied(media, c, w) && p < |Grouped(media)| && WholeDisks(media)[p] == w
    ensures Filter(Grouped(media)[..p], ClassOf(c, IndexedNoLater)) == []
       <==> FirstNamed(WholeDisks(media), w.name) == p
  {
    var before := Grouped(media)[..p];
    FilterEmpty(before, ClassOf(c, IndexedNoLater));
    forall i | 0 <= i < p ensures ClassOf(c, IndexedNoLater)(before[i]) <==> WholeDisks(media)[i].name == w.name {
      TiedByName(media, c, w, i);
    }
    FirstIsHere(WholeDisks(media), w.name, p);
  }

  /** What ties with a disk, before the disks are sorted. */
  lemma {:induction false} TiedDisks(media: seq<RawMedia>, c: PhysicalDisk, w: PhysicalDisk, i: nat)
    requires OnlyTwinsTie(media) && IsTied(media, c, w)
    requires i < |Filter(Grouped(media), ClassOf(c, IndexedNoLater))|
    ensures Filter(Grouped(media), ClassOf(c, IndexedNoLater))[i] == Twin(media, w, i)
  {
    var p := FilterPosition(Grouped(media), ClassOf(c, IndexedNoLater), i);
    TiedByName(media, c, w, p);
    FirstTied(media, c, w, p);
    GroupedAt(media, p);
  }

  lemma {:induction false} TwinsAgree(a: seq<RawMedia>, b: seq<RawMedia>, w: PhysicalDisk, i: nat)
    requires OnlyTwinsTie(a) && multiset(a) == multiset(b) && w in WholeDisks(a)
    ensures Twin(a, w, i) == Twin(b, w, i)
  {
    var k :| 0 <= k < |WholeDisks(a)| && WholeDisks(a)[k] == w;
    var m := WholeComesFrom(a, k);
    SortedBelowIgnoresOrder(a, b, m);
  }

  lemma {:induction false} SameTieCount(a: seq<RawMedia>, b: seq<RawMedia>, c: PhysicalDisk)
    requires multiset(a) == multiset(b)
    ensures |Filter(Grouped(a), ClassOf(c, IndexedNoLater))| == |Filter(Grouped(b), ClassOf(c, IndexedNoLater))|
  {
    TiedGroups(a, c);
    TiedGroups(b, c);
    WholesPermute(a, b);
    FilterPermutes(WholeDisks(a), WholeDisks(b), ClassOf(c, IndexedNoLater));
    PermutationLength(Filter(WholeDisks(a), ClassOf(c, IndexedNoLater)),
                      Filter(WholeDisks(b), ClassOf(c, IndexedNoLater)));
  }

  lemma {:induction false} TiedWhole(media: seq<RawMedia>, c: PhysicalDisk) returns (w: PhysicalDisk)
    requires Filter(Grouped(media), ClassOf(c, IndexedNoLater)) != []
    ensures IsTied(media, c, w)
  {
    TiedGroups(media, c);
    var k := FilterPosition(WholeDisks(media), ClassOf(c, IndexedNoLater), 0);
    w := WholeDisks(media)[k];
    SameNumberTies(c, w);
  }

  lemma {:induction false} SameTies(a: seq<RawMedia>, b: seq<RawMedia>, c: PhysicalDisk)
    requires OnlyTwinsTie(a) && multiset(a) == multiset(b)
    ensures Filter(Grouped(a), ClassOf(c, IndexedNoLater)) == Filter(Grouped(b), ClassOf(c, IndexedNoLater))
  {
    SameTieCount(a, b, c);
    if Filter(Grouped(a), ClassOf(c, IndexedNoLater)) != [] {
      var w := TiedWhole(a, c);
      TiedInBoth(a, b, c, w);
      TwinsPermute(a, b);
      forall i | 0 <= i < |Filter(Grouped(a), ClassOf(c, IndexedNoLater))|
        ensures Filter(Grouped(a), ClassOf(c, IndexedNoLater))[i] == Filter(Grouped(b), ClassOf(c, IndexedNoLater))[i]
      {
        TiedDisks(a, c, w, i);
        TiedDisks(b, c, w, i);
        TwinsAgree(a, b, w, i);
      }
    }
  }

  lemma {:induction false} TiedInBoth(a: seq<RawMedia>, b: seq<RawMedia>, c: PhysicalDisk, w: PhysicalDisk)
    requires multiset(a) == multiset(b) && IsTied(a, c, w)
    ensures IsTied(b, c, w)
  {
    WholesPermute(a, b);
    assert w in multiset(WholeDisks(a));
  }

  /** If only twins tie, listing the media in another order assembles the identical result. */
  lemma {:induction false} AssembleIgnoresOrder(a: seq<RawMedia>, b: seq<RawMedia>)
    requires OnlyTwinsTie(a) && multiset(a) == multiset(b)
    ensures Assembled(a) == Assembled(b)
  {
    forall c ensures Filter(Grouped(a), ClassOf(c, IndexedNoLater)) == Filter(Grouped(b), ClassOf(c, IndexedNoLater)) {
      SameTies(a, b, c);
    }
    IndexOrders();
    SortByClasses(Grouped(a), Grouped(b), IndexedNoLater);
  }

  /** The same result shows the same order among whole media that tie. */
  lemma {:induction false} SameDisksSameOrder(a: seq<RawMedia>, b: seq<RawMedia>, c: PhysicalDisk)
    requires Assembled(a) == Assembled(b)
    ensures Apply(WholeDisk, Filter(a, WholeTied(c))) == Apply(WholeDisk, Filter(b, WholeTied(c)))
  {
    TiedDisksKeepOrder(a, c);
    TiedDisksKeepOrder(b, c);
  }

  /** Swapping two whole disks that tie and are not twins shows. */
  lemma {:induction false} TiedWholesShow(media: seq<RawMedia>, i: nat, j: nat, c: PhysicalDisk)
    requires i < j < |media| && WholeTied(c)(media[i]) && WholeTied(c)(media[j])
    requires WholeDisk(media[i]) != WholeDisk(media[j])
    ensures Assembled(Swap(media, i, j)) != Assembled(media)
  {
    SwapShows(media, i, j, WholeTied(c), WholeDisk);
    if Assembled(Swap(media, i, j)) == Assembled(media) {
      SameDisksSameOrder(Swap(media, i, j), media, c);
      assert false;
    }
  }

  /** A partition with a parent hangs below some disk of the parent's name. */
  lemma {:induction false} HangsSomewhere(media: seq<RawMedia>, m: RawMedia) returns (k: nat)
    requires m in media && !m.whole && HasParent(media, m)
    ensures k < |Assembled(media)| && Assembled(media)[k].name == WholeDiskOf(m.bsd)
    ensures Assembled(media)[k].partitions != []
  {
    HousedMeansParent(media, m);
    var first, below := FirstNamed(WholeDisks(media), WholeDiskOf(m.bsd)), NamedBelow(WholeDiskOf(m.bsd));
    GroupedAt(media, first);
    FilterMembers(media, below);
    assert below(m) && m in Filter(media, below);
    k := PlaceIn(Grouped(media), Assembled(media), first);
  }

  /** The same result shows the same order among partitions that tie below a disk. */
  lemma {:induction false} SamePartitionsSameOrder(a: seq<RawMedia>, b: seq<RawMedia>, name: string, q: Partition,
                                                   k: nat)
    requires Assembled(a) == Assembled(b)
    requires k < |Assembled(a)| && Assembled(a)[k].partitions != [] && Assembled(a)[k].name == name
    ensures Apply(PartitionOf, Filter(a, PartTied(name, q))) == Apply(PartitionOf, Filter(b, PartTied(name, q)))
  {
    TiedPartitionsKeepOrder(a, k, q);
    TiedPartitionsKeepOrder(b, k, q);
  }

  /** Swapping two partitions of one disk that tie and are not twins shows. */
  lemma {:induction false} TiedPartitionsShow(media: seq<RawMedia>, i: nat, j: nat, name: string, q: Partition,
                                              k: nat)
    requires i < j < |media| && PartTied(name, q)(media[i]) && PartTied(name, q)(media[j])
    requires PartitionOf(media[i]) != PartitionOf(media[j])
    requires k < |Assembled(media)| && Assembled(media)[k].partitions != [] && Assembled(media)[k].name == name
    ensures Assembled(Swap(media, i, j)) != Assembled(media)
  {
    SwapShows(media, i, j, PartTied(name, q), PartitionOf);
    if Assembled(Swap(media, i, j)) == Assembled(media) {
      SamePartitionsSameOrder(media, Swap(media, i, j), name, q, k);
      assert false;
    }
  }

  /** Every order of the media assembles the same result exactly if only twins tie. */
  lemma {:induction false} AssembleIgnoresOrderExactly(media: seq<RawMedia>)
    ensures (forall b :: multiset(b) == multiset(media) ==> Assembled(b) == Assembled(media)) <==> OnlyTwinsTie(media)
  {
    if OnlyTwinsTie(media) {
      forall b | multiset(b) == multiset(media) ensures Assembled(b) == Assembled(media) {
        AssembleIgnoresOrder(media, b);
      }
    } else {
      var i, j := TieThatShows(media);
      var b := Swap(media, i, j);
      assert multiset(b) == multiset(media) && Assembled(b) != Assembled(media);
    }
  }

  lemma {:induction false} WholeTies(m: RawMedia, c: PhysicalDisk)
    requires m.whole && DiskIndex(m.bsd) == DiskIndex(c.name)
    ensures WholeTied(c)(m)
  {
    assert WholeTied(c)(m) == (IsWhole(m) && NumberedLike(c)(m));
  }

  lemma {:induction false} PartTies(m: RawMedia, name: string, q: Partition)
    requires !m.whole && WholeDiskOf(m.bsd) == name && m.base == q.startOffset
    ensures PartTied(name, q)(m)
  {
    assert PartTied(name, q)(m) == (NamedBelow(name)(m) && m.base == q.startOffset);
  }

  lemma {:induction false} DifferentWholesShow(media: seq<RawMedia>, i: nat, j: nat)
    requires i < j < |media| && WholesDiffer(media[i], media[j])
    ensures Assembled(Swap(media, i, j)) != Assembled(media)
  {
    var c := WholeDisk(media[i]);
    WholeTies(media[i], c);
    WholeTies(media[j], c);
    TiedWholesShow(media, i, j, c);
  }

  lemma {:induction false} DifferentPartsShow(media: seq<RawMedia>, i: nat, j: nat)
    requires i < j < |media| && PartsDiffer(media[i], media[j]) && HasParent(media, media[i])
    ensures Assembled(Swap(media, i, j)) != Assembled(media)
  {
    var k := HangsSomewhere(media, media[i]);
    var name, q := WholeDiskOf(media[i].bsd), PartitionOf(media[i]);
    PartTies(media[i], name, q);
    PartTies(media[j], name, q);
    TiedPartitionsShow(media, i, j, name, q, k);
  }

  lemma {:induction false} TieThatShows(media: seq<RawMedia>) returns (i: nat, j: nat)
    requires !OnlyTwinsTie(media)
    ensures i < j < |media| && Assembled(Swap(media, i, j)) != Assembled(media)
  {
    if m, n :| m in media && n in media && WholesDiffer(m, n) {
      i, j := PlacesOf(media, m, n);
      DifferentWholesShow(media, i, j);
    } else {
      var m, n :| m in media && n in media && PartsDiffer(m, n) && HasParent(media, m);
      i, j := PlacesOf(media, m, n);
      assert HasParent(media, n);
      DifferentPartsShow(media, i, j);
    }
  }

  lemma {:induction false} PlacesOf(media: seq<RawMedia>, m: RawMedia, n: RawMedia) returns (i: nat, j: nat)
    requires m in media && n in media && m != n
    ensures i < j < |media| && ((media[i] == m && media[j] == n) || (media[i] == n && media[j] == m))
  {
    i :| 0 <= i < |media| && media[i] == m;
    j :| 0 <= j < |media| && media[j] == n;
    i, j := if i < j then i else j, if i < j then j else i;
  }

  // ----- names -----

  lemma {:induction false} LeadingDigitsStop(d: string, rest: string)
    requires Digits(d) && (rest != [] ==> !IsDigit(rest[0]))
    ensures LeadingDigits(d + rest) == d
  {
    if d == [] {
      assert d + rest == rest;
    } else {
      LeadingDigitsStop(d[1..], rest);
      assert (d + rest)[1..] == d[1..] + rest;
    }
  }

  /** A partition named after disk n, whatever its suffix, belongs to disk n; and disk n has
      number n as long as that fits. */
  lemma {:induction false} NamesPointHome(n: nat, suffix: string)
    requires suffix != [] ==> !IsDigit(suffix[0])
    ensures WholeDiskOf("disk" + Decimal(n) + suffix) == "disk" + Decimal(n)
    ensures DiskIndex("disk" + Decimal(n)) == Min(n, U64_MAX)
  {
    var bsd, disk := DISK + Decimal(n) + suffix, DISK + Decimal(n);
    assert bsd == DISK + (Decimal(n) + suffix);
    assert bsd[|DISK|..] == Decimal(n) + suffix && disk[|DISK|..] == Decimal(n);
    LeadingDigitsStop(Decimal(n), suffix);
    ParseOfDecimal(n);
  }

  /** A name that does not begin with "disk" belongs to the disk of its leading digits, and is
      numbered last; so is one where no number follows. */
  lemma {:induction false} OtherNames(digits: string, suffix: string)
    requires Digits(digits) && (suffix != [] ==> !IsDigit(suffix[0])) && !("disk" <= digits + suffix)
    ensures WholeDiskOf(digits + suffix) == "disk" + digits
    ensures DiskIndex(digits + suffix) == 0xFFFF_FFFF_FFFF_FFFF
    ensures ParseUnsigned(suffix) == None ==> DiskIndex("disk" + suffix) == 0xFFFF_FFFF_FFFF_FFFF
  {
    LeadingDigitsStop(digits, suffix);
    assert ("disk" + suffix)[4..] == suffix;
  }
}
