/** The abstract GUID Partition Table the planner works on.

    A table maps a 1-based partition index to an entry. The real entries of
    the `gpt` crate also carry the first and last sector the crate chose;
    the planner never looks at those, so an entry here holds only what the
    planner passes to `add_partition`: a name (its label), a type GUID (as the string
    the crate stores) and the requested size in bytes.
 */
module GptTable {

  datatype Option<T> = None | Some(value: T)

  /** The outcome of a call that propagates an `io::Error` with `?`. */
  datatype Result<T> = Ok(value: T) | IoError

  /** Unsigned 64-bit integers, the width of sector counts in the `gpt` crate. */
  const U64_BOUND: int := 0x1_0000_0000_0000_0000
  newtype u64 = x: int | 0 <= x < 0x1_0000_0000_0000_0000

  /** The type GUID `find_esp` looks for (EFI System Partition). */
  const ESP_GUID: string := "C12A7328-F81F-11D2-BA4B-00A0C93EC93B"

  /** `partition_types::EFI` of the `gpt` crate: the EFI System Partition
      type of the UEFI specification (section 5.3.3, "GPT Partition Entry Array"). */
  const EFI_TYPE_GUID: string := "C12A7328-F81F-11D2-BA4B-00A0C93EC93B"

  /** `partition_types::LINUX_ROOT_X64` of the `gpt` crate: the x86-64 root
      partition type of the Discoverable Partitions Specification. */
  const LINUX_ROOT_X64_GUID: string := "4F68BCE3-E8CD-4DB1-96E7-FBCAF984B709"

  /** Labels the installer gives the partitions it creates. */
  const ROOT_LABEL: string := "HoloFork"
  const ESP_LABEL: string := "ESP"

  datatype Entry = Entry(name: string, typeGuid: string, sizeBytes: nat)

  type Table = map<nat, Entry>

  /** GPT partition indices start at 1. */
  ghost predicate OneBased(t: Table)
  {
    forall i :: i in t ==> 1 <= i
  }

  /** A free sector range as `find_free_sectors` reports it: (start, length). */
  datatype Range = Range(start: u64, length: u64)

  /** The ESP the installer creates is recognisable by `find_esp`, and the
      root partition it creates is not. */
  lemma CatalogConsistent()
    ensures EFI_TYPE_GUID == ESP_GUID
    ensures LINUX_ROOT_X64_GUID != ESP_GUID
  {
    assert LINUX_ROOT_X64_GUID[0] != ESP_GUID[0];
  }
}
