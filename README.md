# holoinstall-rs partition planner, modelled in Dafny

holoinstall-rs is an installer. It asks whether to install alongside an
existing system (dual-boot) or over the whole disk (fresh install), lets the
user pick a block device, and lays out a GPT partition table for it. It then
formats the new partitions, mounts them and runs the installation script.
This project models the part of `src/main.rs` that decides the partition
layout, and proves what that layout is.

- **GptTable** (`gpt_table.dfy`): the table as a map from partition index to
  entry (name, type GUID, size in bytes), free ranges `(start, length)` in
  sectors, `u64` as a bounded newtype, and the GUID and label constants.
- **Sorting** (`sorting.dfy`): the stable sort behind `sort_by`. It has a
  functional definition, `StableSort`. An in-place insertion sort on an
  array, `SortInPlace`, is proved to produce exactly that sequence.
  `StableSortKeepsTieOrder` proves it stable: elements that tie keep their
  input order. Every stable sort by the same comparison gives the same
  output, so this fixes what Rust's `sort_by` returns.
- **EspLocator** (`esp_locator.dfy`): `find_esp`, over the ascending index
  order in which a `BTreeMap` is iterated.
- **FreeRanges** (`free_ranges.dfy`): choosing the free range whose length
  sizes the root partition request (sort by length, take the last).
- **SpacePolicy** (`space_policy.dfy`): the gigabyte arithmetic, the 16/64
  thresholds, and the `length_sectors * 500` root request.
- **Prompt** (`prompt.dfy`): how `ask_yesno` maps the picker's answer.
- **Planner** (`planner.dfy`): the two planning branches of `main`.
  - `PlanFor` is the pure specification.
  - The class `Disk` holds the in-memory table (`partitions`) and the table
    on the device (`onDevice`). Its methods follow the `gpt` crate calls
    `main` makes.
  - `PlanPartitions` is the imperative branch code, proved equal to
    `PlanFor`. It is also proved to write the table only when it reports a
    partitioned outcome.
- **PlannerProperties** (`planner_properties.dfy`): the policy's guarantees,
  proved about `PlanFor`.
- **PartitionPaths** (`partition_paths.dfy`): turning a partition index into
  the device to format, written as the code has it and in corrected form.

The `gpt` crate is not part of this model. Two of its operations enter
`Planner` as function parameters:

- `scan`: `find_free_sectors`, the free ranges of a table.
- `assign`: the index `add_partition` gives a new entry, with `None` for an
  `io::Error`.

The one property assumed of `assign` is `AssignsUnusedIndices`: every index
it returns is at least 1 and not yet in the table. The user's answers are
inputs:

- `dualboot` is the answer to the first prompt;
- `lowSpaceChoice` is the option picked at the low-space prompt, or `None`
  for a picker error.

Panics (`unwrap`, `swap_remove(0)` on an empty vector, `panic!`, `u64`
overflow) are modelled as `Panicked` outcomes. An `io::Error` passed on by
`?` is modelled as `Failed`.

Four details of the code matter:

- The root partition asks for `length_sectors * 500` bytes, i.e. 500 bytes
  per 512-byte sector of the longest free range.
- The ESP type-GUID comparison is exact, case-sensitive string equality.
- When several free ranges share the maximal length, the last one in
  `find_free_sectors` order sizes the request, because the sort is stable
  and `last()` is taken.
- `find_esp` opens the device a second time, read-only. It therefore sees
  the table on the device, not the in-memory one. Both are the same when it
  runs, and `PlanPartitions` requires that.

## Model

| member | source | states |
|---|---|---|
| `EspLocator.FindEsp` | src/main.rs:64-76 | `None` exactly when no entry has the ESP type GUID; otherwise an index present in the table, ESP-typed, and no larger than any other ESP-typed index |
| `EspLocator.AscendingIndices` | src/main.rs:70 | the indices of the table, each exactly once and strictly increasing, as a `BTreeMap` iterates them |
| `EspLocator.EspIndicesAmong` | src/main.rs:70-73 | the filter keeps exactly the indices whose entry is ESP-typed and preserves increasing order |
| `EspLocator.IsEsp` | src/main.rs:71 | the filter's test: exact, case-sensitive equality of the type GUID string with the constant at line 65 (no contract of its own; `FindEsp` and `CatalogConsistent` state its consequences) |
| `EspLocator.MinIndex` | src/main.rs:70 | a non-empty index set has a member no larger than all the others |
| `EspLocator.FindEspSingle` | src/main.rs:64-76 | a table with exactly one ESP-typed entry yields that entry's index |
| `EspLocator.FindEspIgnoresOtherTypes` | src/main.rs:70-75 | adding an entry that is not ESP-typed under an unused index leaves the result of `find_esp` unchanged |
| `GptTable.CatalogConsistent` | src/main.rs:65 | the crate's EFI type is the GUID `find_esp` looks for, and the Linux root type differs from it |
| `Sorting.Insert` | src/main.rs:92 | one step of the stable sort: one element longer than its input, and the last element is the new one unless the old last must go after it; `InsertPermutes`, `InsertSorted`, `InsertAt` and `InsertKeepsTieOrder` state the rest |
| `Sorting.StableSort` | src/main.rs:92 | the sequence `sort_by` returns (here and at lines 116 and 127): as long as its input; `StableSortPermutes`, `StableSortSorted`, `StableSortKeepsTieOrder` and `StableSortOfSorted` state that it is a permutation, ordered and stable |
| `Sorting.StableSortPermutes` | src/main.rs:92 | the stable sort returns a permutation of its input |
| `Sorting.StableSortSorted` | src/main.rs:92 | for a total comparison, the stable sort's output is ordered |
| `Sorting.StableSortOfSorted` | src/main.rs:127 | an input that is already ordered comes back unchanged |
| `Sorting.StableSortKeepsTieOrder` | src/main.rs:92 | stability: any elements that all tie with one another appear in the output in their input order |
| `Sorting.InsertKeepsTieOrder` | src/main.rs:92 | inserting an element puts it behind every element it ties with and keeps their order |
| `Sorting.InsertPermutes` | src/main.rs:92 | inserting one element yields the old multiset plus that element |
| `Sorting.InsertSorted` | src/main.rs:92 | inserting into an ordered sequence keeps it ordered |
| `Sorting.InsertAt` | src/main.rs:92 | insertion places the element after the last element it does not precede |
| `Sorting.LastOfStableSort` | src/main.rs:92-94 | the last element of the stable sort is the last maximal element of the input |
| `Sorting.LastMaximal` | src/main.rs:94 | the last maximal element is an element of the sequence |
| `Sorting.InsertInPlace` | src/main.rs:92 | shifting one element into the sorted prefix of an array leaves the array equal to the functional insert |
| `Sorting.SortInPlace` | src/main.rs:92 | sorting the array in place leaves exactly `StableSort` of its old contents |
| `FreeRanges.ByLength` | src/main.rs:92 | the comparison closure of both `sort_by` calls (lines 92 and 116): by length only; no contract of its own, `ByLengthTotal` and `SortedFreeList` state its consequences |
| `FreeRanges.ByLengthTotal` | src/main.rs:92 | the by-length comparison of `sort_by` is total |
| `FreeRanges.SortedFreeList` | src/main.rs:91-92 | after `sort_by`, the free list holds the same ranges, each no longer than the next |
| `FreeRanges.SortedFreeListKeepsTies` | src/main.rs:92 | ranges of equal length keep the order `find_free_sectors` reported them in |
| `FreeRanges.LastMaximalByLength` | src/main.rs:92-94 | the last maximal range by length sits at a position that is longest and strictly longer than all later ranges |
| `FreeRanges.LastMaximalIsLongest` | src/main.rs:92-94 | the last maximal range is at least as long as every range |
| `FreeRanges.Largest` | src/main.rs:91-94 | `None` exactly for an empty free list (the `unwrap` panic); otherwise a member of the list at least as long as every range |
| `FreeRanges.LargestIsLastLongest` | src/main.rs:115-117 | the chosen range is at the unique position of maximal length with no range of that length after it: on ties the last one wins |
| `Planner.PickLongest` | src/main.rs:91-94 | sorting a copy of the free list in place and taking the last element gives `Largest` |
| `SpacePolicy.LengthGb` | src/main.rs:95-96 | the three integer divisions equal division by 2^21 sectors, the whole number of 1024-based gigabytes |
| `SpacePolicy.Classify` | src/main.rs:97-104 | too small exactly below 16·2^21 sectors, ask exactly from 16·2^21 to below 64·2^21, otherwise go ahead |
| `SpacePolicy.RootRequestBytes` | src/main.rs:106-107 | exactly 500 bytes per sector; `None` exactly when that overflows `u64`; never above the capacity at 512 bytes per sector, and strictly below it for a non-empty range |
| `Prompt.AskYesNo` | src/main.rs:21-26 | a picker error is passed on; otherwise the answer is yes exactly when the choice is "Yes" |
| `Prompt.OnlySixthOptionConfirms` | src/main.rs:23 | of the ten options offered, only the sixth means yes |
| `Planner.Disk.Open` | src/main.rs:83-84 | opening the disk starts the in-memory table as the device's table |
| `Planner.Disk.UpdatePartitions` | src/main.rs:110 | replaces the in-memory table and leaves the device untouched |
| `Planner.Disk.AddPartition` | src/main.rs:107-118 | the three calls at lines 107, 113 and 118: on success the entry is stored under the assigned index, which was unused and at least 1, and nothing else changes; on error the table is unchanged; the device is never touched |
| `Planner.Disk.FindFreeSectors` | src/main.rs:91 | the free list is the scan of the current in-memory table |
| `Planner.Disk.Write` | src/main.rs:121-123 | the device now holds the in-memory table |
| `Planner.PlanPartitions` | src/main.rs:89-123 | outcome and final in-memory table are exactly `PlanFor` of the opened table; the device is written exactly on a partitioned outcome and keeps its old table otherwise |
| `Planner.OpenAndPlan` | src/main.rs:83-123 | opening the device and planning gives exactly `PlanFor` of the device's table; the device then holds the new table on a partitioned outcome and its old table otherwise |
| `Planner.AddRoot` | src/main.rs:106-107 | the root request partitions exactly when `length_sectors * 500` fits `u64` and the crate assigns an index; otherwise the table is unchanged; on success the ESP passed in is reported and the root index is in the table |
| `Planner.DualBoot` | src/main.rs:89-107 | every outcome but partitioning leaves the table as it was, and a partitioned outcome reports the ESP `find_esp` found |
| `Planner.FreshInstall` | src/main.rs:108-119 | fresh install never declines, never needs an existing ESP and has no size floor |
| `Planner.PlanFor` | src/main.rs:89-119 | only the dual-boot branch can decline, and when it does the table is unchanged |
| `PlannerProperties.DualBootProceeds` | src/main.rs:97-107 | with an ESP and a free range of 64 GiB or more, or at least 16 GiB and the answer "Yes", dual-boot goes on to add the root for that ESP, sized by the longest range |
| `PlannerProperties.DualBootPartitionsExactly` | src/main.rs:89-107 | dual-boot partitions exactly when an ESP and a free range exist, the size check passes by size or by "Yes", the request fits `u64` and the crate assigns the root an index |
| `PlannerProperties.FreshInstallProceeds` | src/main.rs:113-118 | once the ESP is added and a free range exists, fresh install goes on to add the root to the table holding just the ESP, sized by its longest range |
| `PlannerProperties.PartitionedIndicesOneBased` | src/main.rs:89-130 | from a 1-based table, the final table is 1-based and both indices handed on to `partitions[idx - 1]` are at least 1 |
| `Planner.RootEntry` | src/main.rs:107 | the entry `add_partition` receives for the root at lines 107 and 118: "HoloFork", Linux root x86-64, the requested bytes; no contract of its own, `AddRootEntry`, `RootRequestIsExact` and `FreshInstallLayout` state its consequences |
| `Planner.ESP_ENTRY` | src/main.rs:113 | the entry `add_partition` receives for the ESP: "ESP", EFI type, 10^9 bytes; a constant, whose use `FreshInstallLayout` states |
| `PlannerProperties.AddRootEffect` | src/main.rs:106-107 | adding the root either fails with the table unchanged or stores the root entry under a fresh index |
| `PlannerProperties.AddRootEntry` | src/main.rs:107 | after a successful add, removing the root index gives back the old table, and the root entry has 500 bytes per sector |
| `PlannerProperties.DualBootEndsInAddRoot` | src/main.rs:89-107 | the dual-boot branch stops with the table untouched or ends in adding the root for the ESP found, sized by the longest range |
| `PlannerProperties.FreshInstallEndsInAddRoot` | src/main.rs:108-119 | a partitioned fresh install ends in adding the root to the table holding only the new ESP |
| `PlannerProperties.DualBootKeepsExistingEntries` | src/main.rs:89-107 | every old entry keeps its index and contents; when partitioning, exactly one index is added, it was unused, and the ESP reported is the one `find_esp` found |
| `PlannerProperties.DualBootEspStillFound` | src/main.rs:89-107 | after a dual-boot install, `find_esp` on the new table still finds the reported ESP |
| `PlannerProperties.DualBootNeedsEsp` | src/main.rs:70-75 | dual-boot on a table without an ESP-typed entry panics, with the table unchanged |
| `PlannerProperties.DualBootThresholds` | src/main.rs:96-104 | below 16 GiB the run panics with nothing added; from 16 to 63 GiB a "no" returns cleanly with nothing added and a picker error fails; from 64 GiB up the answer is never consulted |
| `PlannerProperties.RootRequestIsExact` | src/main.rs:106-118 | in both modes the root entry is "HoloFork", Linux root x86-64, and exactly 500 bytes per sector of the longest free range of the table it was added to; the stored size is strictly below that range's capacity at 512 bytes per sector |
| `PlannerProperties.FreshInstallLayout` | src/main.rs:108-119 | a partitioned fresh install ends with exactly two entries under different indices: "ESP" of 10^9 bytes typed EFI, and the root |
| `PlannerProperties.FreshInstallIgnoresOldTable` | src/main.rs:108-110 | fresh install does the same whatever the table held before |
| `PlannerProperties.FreshInstallEspLocatable` | src/main.rs:108-119 | `find_esp` on the fresh table finds the ESP just created |
| `PlannerProperties.PartitionedIndicesDistinct` | src/main.rs:89-123 | the ESP and root indices handed on to formatting are different entries of the final table, and the root index is at least 1 |
| `PartitionPaths.LexLe` | src/main.rs:127 | Rust's `String` order on paths: a string comes no later than any string it is a prefix of, and a non-empty string comes no later than another only if that one is non-empty with a first character no smaller |
| `PartitionPaths.LexLeTotal` | src/main.rs:127 | string order on device paths is total |
| `PartitionPaths.SortedPathsInOrder` | src/main.rs:126-127 | after the sort, the listed device paths are in string order |
| `PartitionPaths.Paths` | src/main.rs:126-127 | `blockdev.partitions()` mapped to device-path strings, in listing order; no contract of its own, `TenPartitionsPaths` and `PositionMisresolvesTenPartitions` use it |
| `PartitionPaths.At` | src/main.rs:129-130 | indexing `partitions[idx - 1]` succeeds exactly for 1 ≤ idx ≤ the number of partitions and gives that position's path |
| `PartitionPaths.PathByPosition` | src/main.rs:126-130 | the path picked for index `idx` exists exactly for 1 ≤ idx ≤ the number of partitions and is one of the listed paths |
| `PartitionPaths.ResolveByPosition` | src/main.rs:126-130 | sorting the listed paths in place and indexing gives `PathByPosition` |
| `PartitionPaths.LexLeCommonPrefix` | src/main.rs:127 | a common prefix does not change string order |
| `PartitionPaths.TenPartitionsSorted` | src/main.rs:127 | on a disk with partitions 1 to 10, the sort puts partition 10 second |
| `PartitionPaths.PositionMisresolvesTenPartitions` | src/main.rs:126-130 | on that disk the code resolves index 2 to partition 10 and index 10 to partition 9 |
| `PartitionPaths.PathByNumber` | src/main.rs:129-130 | the corrected resolution: `None` exactly when no partition has that number, otherwise the path of a partition with that number |
| `PartitionPaths.PathByNumberExact` | src/main.rs:129-130 | with unique partition numbers, resolution by number gives the partition that carries the index |
| `PartitionPaths.NumberResolutionDistinct` | src/main.rs:129-130 | with unique paths, resolving two different indices by number never gives the same device |

## Left out

- `pick_block_dev` (the device picker loop over sysfs) is not modelled. It is interactive UI; the chosen device enters as the opened table.
- The `Picker` UI of `ask_yesno` is replaced by its result: the option chosen, or `None` for an error.
- The panic of `.unwrap()` on `picker.add_options(…)` at line 23 is not modelled. `add_options` belongs to the `aski` crate, whose failure conditions are not visible, so the model's prompt always offers its ten options.
- `GptConfig::open` is not modelled. The I/O of opening and reading the device is a foreign call; its errors and the `dev_path().unwrap()` panics are not modelled.
- The internals of `find_free_sectors` are not modelled. It is a crate call and enters as the `scan` parameter.
- The internals of `add_partition` are not modelled: how it assigns indices, and how it rounds and aligns a byte size to sectors. The index enters as the `assign` parameter. Its returned index is assumed to be unused and at least 1; the crate's own source is not part of this model.
- Where `add_partition` places a partition is not modelled. It is given only a byte size, so the crate chooses the sectors; the longest free range only sizes the root request, and `Entry` holds no sector positions.
- The `io::Error` that `update_partitions` can return at line 110 is not modelled. The crate's failure conditions are not visible, so the model's `UpdatePartitions` always succeeds.
- A failure of `write().unwrap()` is not modelled. It is device I/O, so the model's `Write` always succeeds.
- `Planner.Disk.AddPartition`: does not model the `u32` width of partition indices. Indices are unbounded `nat`s.
- `SpacePolicy.RootRequestBytes`: models the overflow of `length_sectors * 500` as a panic, as a build with overflow checks does. It does not model the silent wrap-around of release builds.
- Partition index 0 reaching `(idx - 1) as usize` is modelled as "no partition" (`None`). The model does not distinguish the `u32` underflow panic from the out-of-bounds panic.
- Formatting, mounting and the installation script (`mkfs`, `mount`, `holoinstall`, `create_dir_all`) are not modelled. They are process and filesystem I/O. The model stops at the resolved device paths.
- That repeated `find_esp` calls on the same table agree is not stated separately: `FindEsp` is a function of the table.

## Findings

| source | as written | input that shows it | evidently intended | confidence | as-written member | corrected member |
|---|---|---|---|---|---|---|
| src/main.rs:126-130 | the listed partitions are sorted by device path as strings, and index `i` is taken at position `i - 1` | a disk with ten partitions `/dev/sda1` to `/dev/sda10`: string order gives `sda1, sda10, sda2, …, sda9`, so index 2 resolves to `sda10` and index 10 to `sda9`, and `mkfs -f` may format the wrong partition | index `i` names the partition whose kernel partition number is `i` | not executed | `PartitionPaths.PositionMisresolvesTenPartitions` | `PartitionPaths.PathByNumber` |
