/** Turning a partition index into the device to format (lines 126-130).

    After the table is written, the partitions of the block device are
    listed, sorted by their device path as strings (Rust's `String` order:
    lexicographic, a proper prefix first), and the partition for index `i`
    is taken at position `i - 1`; a position outside the list panics.
 */
module PartitionPaths {
  import opened GptTable
  import opened Sorting

  /** Rust's `Ord` on `String`, on the characters of the path. */
  function LexLe(a: string, b: string): (r: bool)
    ensures |a| <= |b| && a == b[..|a|] ==> r
    ensures r && |a| > 0 ==> |b| > 0 && a[0] <= b[0]
    decreases |a|
  {
    |a| == 0 || (|b| > 0 && (a[0] < b[0] || (a[0] == b[0] && LexLe(a[1..], b[1..]))))
  }

  lemma {:induction false} LexLeTotalAt(a: string, b: string)
    ensures LexLe(a, b) || LexLe(b, a)
    decreases |a|
  {
    if |a| > 0 && |b| > 0 && a[0] == b[0] {
      LexLeTotalAt(a[1..], b[1..]);
    }
  }

  lemma LexLeTotal()
    ensures Total(LexLe)
  {
    forall a: string, b: string ensures LexLe(a, b) || LexLe(b, a) {
      LexLeTotalAt(a, b);
    }
  }

  /** After the sort, the listed paths are in string order. */
  lemma SortedPathsInOrder(paths: seq<string>)
    ensures var sorted := StableSort(paths, LexLe);
      forall i :: 0 <= i < |sorted| - 1 ==> LexLe(sorted[i], sorted[i + 1])
  {
    LexLeTotal();
    StableSortSorted(paths, LexLe);
  }

  /** `partitions[(idx - 1) as usize]`: `None` for an index the list does
      not reach, which panics (index 0 underflows the `u32` subtraction). */
  function At(sorted: seq<string>, idx: nat): (r: Option<string>)
    ensures r.Some? <==> 1 <= idx <= |sorted|
    ensures r.Some? ==> r.value == sorted[idx - 1]
  {
    if 1 <= idx <= |sorted| then Some(sorted[idx - 1]) else None
  }

  /** The device the source picks for partition index `idx`. */
  function PathByPosition(paths: seq<string>, idx: nat): (r: Option<string>)
    ensures r.Some? <==> 1 <= idx <= |paths|
    ensures r.Some? ==> r.value in paths
  {
    var sorted := StableSort(paths, LexLe);
    StableSortPermutes(paths, LexLe);
    if 1 <= idx <= |sorted| then
      assert sorted[idx - 1] in multiset(sorted);
      At(sorted, idx)
    else None
  }

  /** Lines 126-130 as the source runs them: sort the listed paths in place,
      then index by position. */
  method ResolveByPosition(paths: seq<string>, idx: nat) returns (r: Option<string>)
    ensures r == PathByPosition(paths, idx)
  {
    var a := new string[|paths|](i requires 0 <= i < |paths| => paths[i]);
    assert a[..] == paths;
    SortInPlace(a, LexLe);
    if 1 <= idx <= a.Length {
      r := Some(a[idx - 1]);
    } else {
      r := None;
    }
  }

  /** A partition of the block device: its device path and the partition
      number the kernel gives it, which for a GPT disk is its table index. */
  datatype PartitionDevice = PartitionDevice(path: string, number: nat)

  /** The list `blockdev.partitions()` yields, as device paths. */
  function Paths(parts: seq<PartitionDevice>): (ps: seq<string>)
  {
    seq(|parts|, i requires 0 <= i < |parts| => parts[i].path)
  }

  /** The device of partition number `idx`, the one the index refers to. */
  function PathByNumber(parts: seq<PartitionDevice>, idx: nat): (r: Option<string>)
    ensures r.None? <==> forall i :: 0 <= i < |parts| ==> parts[i].number != idx
    ensures r.Some? ==> exists i :: 0 <= i < |parts| && parts[i].number == idx && parts[i].path == r.value
    decreases |parts|
  {
    if |parts| == 0 then None
    else if parts[0].number == idx then Some(parts[0].path)
    else
      var r := PathByNumber(parts[1..], idx);
      assert r.Some? ==> exists i :: 0 <= i < |parts| && parts[i].number == idx && parts[i].path == r.value by {
        if r.Some? {
          var i :| 0 <= i < |parts[1..]| && parts[1..][i].number == idx && parts[1..][i].path == r.value;
          assert parts[i + 1] == parts[1..][i];
        }
      }
      assert r.None? ==> forall i :: 0 <= i < |parts| ==> parts[i].number != idx by {
        if r.None? {
          forall i | 0 <= i < |parts| ensures parts[i].number != idx {
            if i > 0 {
              assert parts[i] == parts[1..][i - 1];
            }
          }
        }
      }
      r
  }

  /** When partition numbers are unique, the device found is the one that
      carries the index. */
  lemma PathByNumberExact(parts: seq<PartitionDevice>, idx: nat, k: nat)
    requires k < |parts| && parts[k].number == idx
    requires forall i, j :: 0 <= i < j < |parts| ==> parts[i].number != parts[j].number
    ensures PathByNumber(parts, idx) == Some(parts[k].path)
  {
    var r := PathByNumber(parts, idx);
    var i :| 0 <= i < |parts| && parts[i].number == idx && parts[i].path == r.value;
    assert i == k;
  }

  /** With unique device paths, two different indices resolved by number
      never name the same device: the ESP and the root partition are
      formatted on different partitions. */
  lemma NumberResolutionDistinct(parts: seq<PartitionDevice>, esp: nat, root: nat)
    requires esp != root
    requires forall i, j :: 0 <= i < j < |parts| ==> parts[i].path != parts[j].path
    ensures PathByNumber(parts, esp).Some? && PathByNumber(parts, root).Some? ==>
      PathByNumber(parts, esp).value != PathByNumber(parts, root).value
  {
    var e := PathByNumber(parts, esp);
    var r := PathByNumber(parts, root);
    if e.Some? && r.Some? {
      var i :| 0 <= i < |parts| && parts[i].number == esp && parts[i].path == e.value;
      var j :| 0 <= j < |parts| && parts[j].number == root && parts[j].path == r.value;
      assert i != j;
    }
  }

  lemma {:induction false} LexLeCommonPrefix(p: string, a: string, b: string)
    ensures LexLe(p + a, p + b) == LexLe(a, b)
    decreases |p|
  {
    if |p| > 0 {
      assert (p + a)[0] == p[0] == (p + b)[0];
      assert (p + a)[1..] == p[1..] + a;
      assert (p + b)[1..] == p[1..] + b;
      assert LexLe(p + a, p + b) == LexLe(p[1..] + a, p[1..] + b);
      LexLeCommonPrefix(p[1..], a, b);
    } else {
      assert p + a == a && p + b == b;
    }
  }

  const DISK: string := "/dev/sda"
  const SUFFIXES: seq<string> := ["1", "2", "3", "4", "5", "6", "7", "8", "9", "10"]

  /** A disk whose ten partitions are `/dev/sda1` to `/dev/sda10`, listed in
      the order of their numbers. */
  const TEN_PARTITIONS: seq<PartitionDevice> :=
    seq(10, i requires 0 <= i < 10 => PartitionDevice(DISK + SUFFIXES[i], i + 1))

  lemma TenPartitionsPaths()
    ensures |Paths(TEN_PARTITIONS)| == 10
    ensures forall k :: 0 <= k < 10 ==> Paths(TEN_PARTITIONS)[k] == DISK + SUFFIXES[k]
  {
  }

  /** Two one-character strings are ordered by their characters. */
  lemma LexLeSingle(a: string, b: string)
    requires |a| == 1 && |b| == 1
    ensures LexLe(a, b) <==> a[0] <= b[0]
  {
    assert a[1..] == [];
  }

  /** The first nine paths are listed in string order already. */
  lemma FirstNineSorted()
    ensures Sorted(DropLast(Paths(TEN_PARTITIONS)), LexLe)
  {
    TenPartitionsPaths();
    var nine := DropLast(Paths(TEN_PARTITIONS));
    forall k | 0 <= k < 8 ensures LexLe(nine[k], nine[k + 1]) {
      LexLeSingle(SUFFIXES[k], SUFFIXES[k + 1]);
      LexLeCommonPrefix(DISK, SUFFIXES[k], SUFFIXES[k + 1]);
    }
  }

  /** `/dev/sda10` comes after `/dev/sda1` and before `/dev/sda2` to
      `/dev/sda9`. */
  lemma TenthBetween()
    ensures var ps := Paths(TEN_PARTITIONS);
      && LexLe(ps[0], ps[9])
      && forall k :: 1 <= k < 9 ==> !LexLe(ps[k], ps[9])
  {
    TenPartitionsPaths();
    LexLeCommonPrefix(DISK, "1", "10");
    forall k | 1 <= k < 9 ensures !LexLe(DISK + SUFFIXES[k], DISK + "10") {
      var d := SUFFIXES[k];
      assert |d| == 1 && d[0] > '1';
      assert !LexLe(d, "10");
      LexLeCommonPrefix(DISK, d, "10");
    }
  }

  /** String order puts `/dev/sda10` right after `/dev/sda1`, ahead of
      `/dev/sda2` to `/dev/sda9`. */
  lemma TenPartitionsSorted()
    ensures var ps := Paths(TEN_PARTITIONS);
      StableSort(ps, LexLe) == ps[..1] + [ps[9]] + ps[1..9]
  {
    var ps := Paths(TEN_PARTITIONS);
    var nine := DropLast(ps);
    FirstNineSorted();
    StableSortOfSorted(nine, LexLe);
    TenthBetween();
    assert forall k :: 0 <= k < 9 ==> nine[k] == ps[k];
    InsertAt(nine, 1, Last(ps), LexLe);
    assert nine[..1] == ps[..1] && nine[1..] == ps[1..9];
  }

  /** Resolution by position on that disk, as the code does it. */
  lemma PositionResolvesTenPartitions()
    ensures PathByPosition(Paths(TEN_PARTITIONS), 2) == Some(DISK + "10")
    ensures PathByPosition(Paths(TEN_PARTITIONS), 10) == Some(DISK + "9")
  {
    var ps := Paths(TEN_PARTITIONS);
    TenPartitionsSorted();
    TenPartitionsPaths();
    var sorted := StableSort(ps, LexLe);
    assert sorted == ps[..1] + [ps[9]] + ps[1..9];
    assert sorted[1] == ps[9] == DISK + SUFFIXES[9];
    assert sorted[9] == ps[8] == DISK + SUFFIXES[8];
  }

  /** Resolution by partition number on that disk. */
  lemma NumberResolvesTenPartitions()
    ensures PathByNumber(TEN_PARTITIONS, 2) == Some(DISK + "2")
    ensures PathByNumber(TEN_PARTITIONS, 10) == Some(DISK + "10")
  {
    assert forall i :: 0 <= i < 10 ==> TEN_PARTITIONS[i].number == i + 1;
    PathByNumberExact(TEN_PARTITIONS, 2, 1);
    PathByNumberExact(TEN_PARTITIONS, 10, 9);
  }

  /** The as-written resolution on that disk: index 2 yields partition 10
      and index 10 yields partition 9, where the partition numbers give
      partitions 2 and 10. */
  lemma PositionMisresolvesTenPartitions()
    ensures PathByPosition(Paths(TEN_PARTITIONS), 2) == Some(DISK + "10")
    ensures PathByPosition(Paths(TEN_PARTITIONS), 10) == Some(DISK + "9")
    ensures PathByNumber(TEN_PARTITIONS, 2) == Some(DISK + "2")
    ensures PathByNumber(TEN_PARTITIONS, 10) == Some(DISK + "10")
  {
    PositionResolvesTenPartitions();
    NumberResolvesTenPartitions();
  }
}
