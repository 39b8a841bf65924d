/** The disk model every backend fills (core/src/lib.rs). */
module Model {
  import opened Machine

  datatype Partition = Partition(
    devicePath: string,
    name: string,
    startOffset: u64,
    sizeBytes: u64,
    partitionType: Option<string>,
    mountPoint: Option<string>,
    filesystem: Option<string>,
    volumeLabel: Option<string>)

  datatype PhysicalDisk = PhysicalDisk(
    devicePath: string,
    name: string,
    sizeBytes: u64,
    logicalSectorSize: u32,
    physicalSectorSize: u32,
    model: Option<string>,
    serial: Option<string>,
    removable: bool,
    readOnly: bool,
    synthesized: bool,
    partitions: seq<Partition>)

  /** The order partitions are sorted by: where they start. */
  predicate StartsNoLater(p: Partition, q: Partition) {
    p.startOffset <= q.startOffset
  }
}
