/** The planning step of `main`: from the opened GPT to the written table.

    `main` opens the chosen device writable, then either keeps the existing
    partitions and adds a root partition sized by the longest free range
    (dual-boot), or empties the table and adds an ESP and a root partition
    (fresh install). The table goes to the device only when the branch it
    took got that far; every other way out of it is a panic, an `io::Error`
    passed on with `?`, or the clean return at the low-space prompt.

    The `gpt` crate is not part of this model. Two of its operations enter as
    parameters: `scan` is `find_free_sectors` (the free ranges of a table)
    and `assign` is the index `add_partition` gives a new entry, or `None`
    when it returns an error. `add_partition` is given only a byte size, so
    where in the free space the new partition lands is the crate's choice,
    which the model does not follow. The model relies on one property of the crate:
    an index it hands out is at least 1 and not in use.
 */
module Planner {
  import opened GptTable
  import opened Sorting
  import opened EspLocator
  import opened FreeRanges
  import opened SpacePolicy
  import opened Prompt

  datatype Panic =
    | EspMissing        // `swap_remove(0)` on an empty list in `find_esp`
    | NoFreeRange       // `last().unwrap()` on an empty free list
    | TooLittleSpace    // `panic!` below 16 whole gigabytes
    | SizeOverflow      // `length_sectors * 500` overflows `u64`

  datatype Outcome =
    | Partitioned(esp: nat, root: nat)  // table written; these indices go on to formatting
    | Declined                          // the user said no at the low-space prompt: `Ok(())`
    | Panicked(why: Panic)
    | Failed                            // an `io::Error` from the crate or the picker

  /** What planning does: how it ends and what the in-memory table then is. */
  datatype Plan = Plan(outcome: Outcome, table: Table)

  type Scanner = Table -> seq<Range>
  type Assigner = (Table, Entry) -> Option<nat>

  ghost predicate AssignsUnusedIndices(assign: Assigner)
  {
    forall t, e :: assign(t, e).Some? ==> 1 <= assign(t, e).value && assign(t, e).value !in t
  }

  function RootEntry(bytes: u64): (e: Entry)
  {
    Entry(ROOT_LABEL, LINUX_ROOT_X64_GUID, bytes as nat)
  }

  const ESP_ENTRY: Entry := Entry(ESP_LABEL, EFI_TYPE_GUID, ESP_SIZE_BYTES)

  /** Adds the root partition for a free range of `length` sectors. */
  function AddRoot(t: Table, esp: nat, length: u64, assign: Assigner): (p: Plan)
    ensures p.outcome.Partitioned? <==>
      RootRequestBytes(length).Some? && assign(t, RootEntry(RootRequestBytes(length).value)).Some?
    ensures !p.outcome.Partitioned? ==> p.table == t
    ensures p.outcome.Partitioned? ==> p.outcome.esp == esp && p.outcome.root in p.table
  {
    match RootRequestBytes(length)
    case None => Plan(Panicked(SizeOverflow), t)
    case Some(bytes) =>
      match assign(t, RootEntry(bytes))
      case None => Plan(Failed, t)
      case Some(root) => Plan(Partitioned(esp, root), t[root := RootEntry(bytes)])
  }

  /** The dual-boot branch (lines 89-107). */
  function DualBoot(t: Table, lowSpaceChoice: Option<string>, scan: Scanner, assign: Assigner): (p: Plan)
    ensures !p.outcome.Partitioned? ==> p.table == t
    ensures p.outcome.Partitioned? ==> FindEsp(t) == Some(p.outcome.esp)
  {
    match FindEsp(t)
    case None => Plan(Panicked(EspMissing), t)
    case Some(esp) =>
      match Largest(scan(t))
      case None => Plan(Panicked(NoFreeRange), t)
      case Some(range) =>
        match Classify(range.length)
        case TooSmall => Plan(Panicked(TooLittleSpace), t)
        case AskFirst =>
          (match AskYesNo(lowSpaceChoice)
           case IoError => Plan(Failed, t)
           case Ok(yes) => if yes then AddRoot(t, esp, range.length, assign) else Plan(Declined, t))
        case Enough => AddRoot(t, esp, range.length, assign)
  }

  /** The fresh-install branch (lines 108-119): the old table is dropped. */
  function FreshInstall(t: Table, scan: Scanner, assign: Assigner): (p: Plan)
    ensures !p.outcome.Declined?
    ensures p.outcome != Panicked(EspMissing) && p.outcome != Panicked(TooLittleSpace)
  {
    var empty: Table := map[];
    match assign(empty, ESP_ENTRY)
    case None => Plan(Failed, empty)
    case Some(esp) =>
      var withEsp := empty[esp := ESP_ENTRY];
      match Largest(scan(withEsp))
      case None => Plan(Panicked(NoFreeRange), withEsp)
      case Some(range) => AddRoot(withEsp, esp, range.length, assign)
  }

  function PlanFor(dualboot: bool, t: Table, lowSpaceChoice: Option<string>, scan: Scanner, assign: Assigner): (p: Plan)
    ensures p.outcome.Declined? ==> dualboot && p.table == t
  {
    if dualboot then DualBoot(t, lowSpaceChoice, scan, assign) else FreshInstall(t, scan, assign)
  }

  /** The `GptDisk` the installer edits: the table in memory and the table on
      the device, which only `Write` changes. */
  class Disk {
    var partitions: Table
    var onDevice: Table

    /** `GptConfig::open`: the in-memory table starts as the device's. */
    constructor Open(device: Table)
      ensures partitions == device && onDevice == device
    {
      partitions := device;
      onDevice := device;
    }

    /** `update_partitions`: replaces the in-memory table. */
    method UpdatePartitions(p: Table)
      modifies this
      ensures partitions == p && onDevice == old(onDevice)
    {
      partitions := p;
    }

    /** `add_partition`: stores the entry under the index the crate picks. */
    method AddPartition(name: string, sizeBytes: nat, typeGuid: string, assign: Assigner) returns (idx: Result<nat>)
      requires AssignsUnusedIndices(assign)
      modifies this
      ensures onDevice == old(onDevice)
      ensures idx.Ok? <==> assign(old(partitions), Entry(name, typeGuid, sizeBytes)).Some?
      ensures idx.Ok? ==> && idx.value == assign(old(partitions), Entry(name, typeGuid, sizeBytes)).value
                          && 1 <= idx.value && idx.value !in old(partitions)
                          && partitions == old(partitions)[idx.value := Entry(name, typeGuid, sizeBytes)]
      ensures idx.IoError? ==> partitions == old(partitions)
    {
      var entry := Entry(name, typeGuid, sizeBytes);
      match assign(partitions, entry)
      case None =>
        idx := IoError;
      case Some(i) =>
        partitions := partitions[i := entry];
        idx := Ok(i);
    }

    /** `find_free_sectors` on the in-memory table. */
    method FindFreeSectors(scan: Scanner) returns (free: seq<Range>)
      ensures free == scan(partitions)
    {
      free := scan(partitions);
    }

    /** `write`: the in-memory table goes to the device. */
    method Write()
      modifies this
      ensures onDevice == partitions && partitions == old(partitions)
    {
      onDevice := partitions;
    }
  }

  /** Sorts a copy of the free list in place by length and takes the last
      element, as `sort_by` followed by `last()` does. */
  method PickLongest(free: seq<Range>) returns (r: Option<Range>)
    ensures r == Largest(free)
  {
    var a := new Range[|free|](i requires 0 <= i < |free| => free[i]);
    assert a[..] == free;
    SortInPlace(a, ByLength);
    if a.Length == 0 {
      r := None;
    } else {
      r := Some(a[a.Length - 1]);
    }
  }

  /** Lines 89-123 of `main`, on a disk just opened (so its in-memory and
      on-device tables agree, and `find_esp` sees the same table). */
  method PlanPartitions(disk: Disk, dualboot: bool, lowSpaceChoice: Option<string>, scan: Scanner, assign: Assigner)
    returns (o: Outcome)
    requires AssignsUnusedIndices(assign)
    requires disk.partitions == disk.onDevice
    modifies disk
    ensures PlanFor(dualboot, old(disk.partitions), lowSpaceChoice, scan, assign) == Plan(o, disk.partitions)
    ensures disk.onDevice == if o.Partitioned? then disk.partitions else old(disk.onDevice)
  {
    var espIdx: nat;
    var rootIdx: nat;
    if dualboot {
      var found := FindEsp(disk.onDevice);
      if found.None? {
        return Panicked(EspMissing);
      }
      espIdx := found.value;
      var free := disk.FindFreeSectors(scan);
      var longest := PickLongest(free);
      if longest.None? {
        return Panicked(NoFreeRange);
      }
      var length := longest.value.length;
      var verdict := Classify(length);
      if verdict == TooSmall {
        return Panicked(TooLittleSpace);
      } else if verdict == AskFirst {
        var cont := AskYesNo(lowSpaceChoice);
        if cont.IoError? {
          return Failed;
        }
        if !cont.value {
          return Declined;
        }
      }
      var bytes := RootRequestBytes(length);
      if bytes.None? {
        return Panicked(SizeOverflow);
      }
      var added := disk.AddPartition(ROOT_LABEL, bytes.value as nat, LINUX_ROOT_X64_GUID, assign);
      if added.IoError? {
        return Failed;
      }
      rootIdx := added.value;
    } else {
      disk.UpdatePartitions(map[]);
      var added := disk.AddPartition(ESP_LABEL, ESP_SIZE_BYTES, EFI_TYPE_GUID, assign);
      if added.IoError? {
        return Failed;
      }
      espIdx := added.value;
      var free := disk.FindFreeSectors(scan);
      var longest := PickLongest(free);
      if longest.None? {
        return Panicked(NoFreeRange);
      }
      var bytes := RootRequestBytes(longest.value.length);
      if bytes.None? {
        return Panicked(SizeOverflow);
      }
      added := disk.AddPartition(ROOT_LABEL, bytes.value as nat, LINUX_ROOT_X64_GUID, assign);
      if added.IoError? {
        return Failed;
      }
      rootIdx := added.value;
    }
    disk.Write();
    o := Partitioned(espIdx, rootIdx);
  }

  /** Lines 83-123 of `main`: opens the chosen device and plans on it. */
  method OpenAndPlan(device: Table, dualboot: bool, lowSpaceChoice: Option<string>, scan: Scanner, assign: Assigner)
    returns (o: Outcome, disk: Disk)
    requires AssignsUnusedIndices(assign)
    ensures PlanFor(dualboot, device, lowSpaceChoice, scan, assign) == Plan(o, disk.partitions)
    ensures disk.onDevice == if o.Partitioned? then disk.partitions else device
  {
    disk := new Disk.Open(device);
    o := PlanPartitions(disk, dualboot, lowSpaceChoice, scan, assign);
  }
}
