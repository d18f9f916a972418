/** What the planning policy guarantees, proved of `Planner.PlanFor`. */
module PlannerProperties {
  import opened GptTable
  import opened EspLocator
  import opened FreeRanges
  import opened SpacePolicy
  import opened Prompt
  import opened Planner

  /** Adding the root either leaves the table alone or stores the root
      entry under an unused index. */
  lemma AddRootEffect(t: Table, esp: nat, length: u64, assign: Assigner)
    requires AssignsUnusedIndices(assign)
    ensures var p := AddRoot(t, esp, length, assign);
      && (p.outcome.Partitioned? ==>
            && RootRequestBytes(length).Some?
            && p.outcome.esp == esp
            && p.outcome.root !in t
            && p.table == t[p.outcome.root := RootEntry(RootRequestBytes(length).value)])
      && (!p.outcome.Partitioned? ==> p.table == t)
  {
    match RootRequestBytes(length)
    case None =>
    case Some(bytes) =>
      match assign(t, RootEntry(bytes))
      case None =>
      case Some(root) =>
  }

  lemma AddRootEntry(t: Table, esp: nat, length: u64, assign: Assigner)
    requires AssignsUnusedIndices(assign)
    ensures var p := AddRoot(t, esp, length, assign);
      p.outcome.Partitioned? ==>
        && p.outcome.root in p.table
        && p.table - {p.outcome.root} == t
        && p.table[p.outcome.root] == Entry(ROOT_LABEL, LINUX_ROOT_X64_GUID, length as int * ROOT_BYTES_PER_SECTOR)
  {
    AddRootEffect(t, esp, length, assign);
    var p := AddRoot(t, esp, length, assign);
    if p.outcome.Partitioned? {
      assert p.table - {p.outcome.root} == t;
    }
  }

  /** The dual-boot branch either stops with the table untouched or ends in
      `AddRoot` for the ESP found and the longest free range. */
  lemma DualBootEndsInAddRoot(t: Table, choice: Option<string>, scan: Scanner, assign: Assigner)
    ensures var p := DualBoot(t, choice, scan, assign);
      || (!p.outcome.Partitioned? && p.table == t)
      || (&& FindEsp(t).Some? && Largest(scan(t)).Some?
          && p == AddRoot(t, FindEsp(t).value, Largest(scan(t)).value.length, assign))
  {
    match FindEsp(t)
    case None =>
    case Some(esp) =>
      match Largest(scan(t))
      case None =>
      case Some(range) =>
        match Classify(range.length)
        case TooSmall =>
        case AskFirst =>
        case Enough =>
  }

  /** The table the fresh-install branch adds the root to: just the ESP. */
  function FreshEspOnly(assign: Assigner): (t: Table)
    requires assign(map[], ESP_ENTRY).Some?
  {
    map[assign(map[], ESP_ENTRY).value := ESP_ENTRY]
  }

  /** The fresh-install branch partitions only through `AddRoot` on the
      table that holds just the new ESP. */
  lemma FreshInstallEndsInAddRoot(t: Table, scan: Scanner, assign: Assigner)
    ensures var p := FreshInstall(t, scan, assign);
      p.outcome.Partitioned? ==>
        && assign(map[], ESP_ENTRY).Some?
        && Largest(scan(FreshEspOnly(assign))).Some?
        && p == AddRoot(FreshEspOnly(assign), assign(map[], ESP_ENTRY).value,
                        Largest(scan(FreshEspOnly(assign))).value.length, assign)
  {
    var empty: Table := map[];
    match assign(empty, ESP_ENTRY)
    case None =>
    case Some(esp) =>
      assert empty[esp := ESP_ENTRY] == FreshEspOnly(assign);
  }

  /** Dual-boot never drops or alters an existing entry: on every outcome,
      each old index still holds its old entry; when it partitions, the table
      gains exactly the root entry, under an index that was unused, and the
      ESP reported is the one `find_esp` found before planning. */
  lemma DualBootKeepsExistingEntries(t: Table, choice: Option<string>, scan: Scanner, assign: Assigner)
    requires AssignsUnusedIndices(assign)
    ensures var p := PlanFor(true, t, choice, scan, assign);
      && (forall i :: i in t ==> i in p.table && p.table[i] == t[i])
      && (p.outcome.Partitioned? ==>
            && FindEsp(t) == Some(p.outcome.esp)
            && p.outcome.root !in t
            && p.table.Keys == t.Keys + {p.outcome.root})
      && (!p.outcome.Partitioned? ==> p.table == t)
  {
    var p := DualBoot(t, choice, scan, assign);
    DualBootEndsInAddRoot(t, choice, scan, assign);
    if FindEsp(t).Some? && Largest(scan(t)).Some? {
      AddRootEffect(t, FindEsp(t).value, Largest(scan(t)).value.length, assign);
    }
  }

  /** A dual-boot install leaves a table in which `find_esp` still finds the
      same ESP. */
  lemma DualBootEspStillFound(t: Table, choice: Option<string>, scan: Scanner, assign: Assigner)
    requires AssignsUnusedIndices(assign)
    ensures var p := PlanFor(true, t, choice, scan, assign);
      p.outcome.Partitioned? ==> FindEsp(p.table) == Some(p.outcome.esp)
  {
    var p := DualBoot(t, choice, scan, assign);
    DualBootEndsInAddRoot(t, choice, scan, assign);
    if p.outcome.Partitioned? {
      var length := Largest(scan(t)).value.length;
      AddRootEffect(t, FindEsp(t).value, length, assign);
      CatalogConsistent();
      FindEspIgnoresOtherTypes(t, p.outcome.root, RootEntry(RootRequestBytes(length).value));
    }
  }

  /** Dual-boot without an ESP-typed entry panics before anything else. */
  lemma DualBootNeedsEsp(t: Table, choice: Option<string>, scan: Scanner, assign: Assigner)
    requires forall i :: i in t ==> !IsEsp(t[i])
    ensures PlanFor(true, t, choice, scan, assign) == Plan(Panicked(EspMissing), t)
  {
  }

  /** The three size classes of the dual-boot branch. Below 16 gigabytes it
      panics; from 16 to 63 it asks, and "no" ends the run with nothing added;
      above that the answer to the prompt is never consulted. */
  lemma DualBootThresholds(t: Table, choice: Option<string>, other: Option<string>, scan: Scanner, assign: Assigner)
    requires FindEsp(t).Some? && Largest(scan(t)).Some?
    ensures var len := Largest(scan(t)).value.length as int;
      && (len < 16 * SECTORS_PER_GIB ==>
            PlanFor(true, t, choice, scan, assign) == Plan(Panicked(TooLittleSpace), t))
      && (16 * SECTORS_PER_GIB <= len < 64 * SECTORS_PER_GIB && choice.Some? && choice.value != "Yes" ==>
            PlanFor(true, t, choice, scan, assign) == Plan(Declined, t))
      && (16 * SECTORS_PER_GIB <= len < 64 * SECTORS_PER_GIB && choice.None? ==>
            PlanFor(true, t, choice, scan, assign) == Plan(Failed, t))
      && (64 * SECTORS_PER_GIB <= len ==>
            PlanFor(true, t, choice, scan, assign) == PlanFor(true, t, other, scan, assign))
  {
  }

  /** The root partition both branches request: named "HoloFork", typed
      Linux root (x86-64), and of exactly 500 bytes per sector of the range
      chosen from the free list of the table it is added to. */
  lemma RootRequestIsExact(dualboot: bool, t: Table, choice: Option<string>, scan: Scanner, assign: Assigner)
    requires AssignsUnusedIndices(assign)
    ensures var p := PlanFor(dualboot, t, choice, scan, assign);
      p.outcome.Partitioned? ==>
        var before := p.table - {p.outcome.root};
        && p.outcome.root in p.table
        && Largest(scan(before)).Some?
        && var length := Largest(scan(before)).value.length as int;
        && p.table[p.outcome.root] == Entry(ROOT_LABEL, LINUX_ROOT_X64_GUID, length * ROOT_BYTES_PER_SECTOR)
        && (length > 0 ==> p.table[p.outcome.root].sizeBytes < length * 512)
  {
    if dualboot {
      DualBootEndsInAddRoot(t, choice, scan, assign);
      if FindEsp(t).Some? && Largest(scan(t)).Some? {
        AddRootEntry(t, FindEsp(t).value, Largest(scan(t)).value.length, assign);
      }
    } else {
      FreshInstallEndsInAddRoot(t, scan, assign);
      if assign(map[], ESP_ENTRY).Some? && Largest(scan(FreshEspOnly(assign))).Some? {
        AddRootEntry(FreshEspOnly(assign), assign(map[], ESP_ENTRY).value,
                     Largest(scan(FreshEspOnly(assign))).value.length, assign);
      }
    }
  }

  /** Fresh install ends, when it partitions, with exactly two entries: the
      ESP of 10^9 bytes and the root partition, under different indices. */
  lemma FreshInstallLayout(t: Table, choice: Option<string>, scan: Scanner, assign: Assigner)
    requires AssignsUnusedIndices(assign)
    ensures var p := PlanFor(false, t, choice, scan, assign);
      p.outcome.Partitioned? ==>
        && p.outcome.esp != p.outcome.root
        && p.table.Keys == {p.outcome.esp, p.outcome.root}
        && p.table[p.outcome.esp] == Entry(ESP_LABEL, EFI_TYPE_GUID, 1000000000)
        && p.table[p.outcome.root].typeGuid == LINUX_ROOT_X64_GUID
  {
    var p := PlanFor(false, t, choice, scan, assign);
    if p.outcome.Partitioned? {
      var empty: Table := map[];
      var esp := assign(empty, ESP_ENTRY).value;
      var withEsp := empty[esp := ESP_ENTRY];
      var range := Largest(scan(withEsp)).value;
      var bytes := RootRequestBytes(range.length).value;
      assert assign(withEsp, RootEntry(bytes)).Some?;
    }
  }

  /** What fresh install does is the same whatever the table held before. */
  lemma FreshInstallIgnoresOldTable(t1: Table, t2: Table, choice: Option<string>, scan: Scanner, assign: Assigner)
    ensures PlanFor(false, t1, choice, scan, assign) == PlanFor(false, t2, choice, scan, assign)
  {
  }

  /** The ESP a fresh install creates is the one `find_esp` would locate in
      the resulting table: a later dual-boot run can build on it. */
  lemma FreshInstallEspLocatable(t: Table, choice: Option<string>, scan: Scanner, assign: Assigner)
    requires AssignsUnusedIndices(assign)
    ensures var p := PlanFor(false, t, choice, scan, assign);
      p.outcome.Partitioned? ==> FindEsp(p.table) == Some(p.outcome.esp)
  {
    var p := PlanFor(false, t, choice, scan, assign);
    if p.outcome.Partitioned? {
      FreshInstallLayout(t, choice, scan, assign);
      CatalogConsistent();
      FindEspSingle(p.table, p.outcome.esp);
    }
  }

  /** When planning partitions, the two indices it hands to formatting are
      different entries of the final table. */
  lemma PartitionedIndicesDistinct(dualboot: bool, t: Table, choice: Option<string>, scan: Scanner, assign: Assigner)
    requires AssignsUnusedIndices(assign)
    ensures var p := PlanFor(dualboot, t, choice, scan, assign);
      p.outcome.Partitioned? ==>
        && p.outcome.esp in p.table && p.outcome.root in p.table
        && p.outcome.esp != p.outcome.root
        && 1 <= p.outcome.root
  {
    if dualboot {
      DualBootKeepsExistingEntries(t, choice, scan, assign);
      DualBootEndsInAddRoot(t, choice, scan, assign);
      if FindEsp(t).Some? && Largest(scan(t)).Some? {
        AddRootEffect(t, FindEsp(t).value, Largest(scan(t)).value.length, assign);
      }
    } else {
      FreshInstallLayout(t, choice, scan, assign);
      FreshInstallEndsInAddRoot(t, scan, assign);
      if assign(map[], ESP_ENTRY).Some? && Largest(scan(FreshEspOnly(assign))).Some? {
        AddRootEffect(FreshEspOnly(assign), assign(map[], ESP_ENTRY).value,
                      Largest(scan(FreshEspOnly(assign))).value.length, assign);
      }
    }
  }

  /** Dual-boot goes on to request the root when an ESP and a free range
      exist and the range is 64 gigabytes or more, or at least 16 and the
      user answered "Yes". */
  lemma DualBootProceeds(t: Table, choice: Option<string>, scan: Scanner, assign: Assigner)
    requires FindEsp(t).Some? && Largest(scan(t)).Some?
    requires || 64 * SECTORS_PER_GIB <= Largest(scan(t)).value.length as int
             || (16 * SECTORS_PER_GIB <= Largest(scan(t)).value.length as int && choice == Some("Yes"))
    ensures PlanFor(true, t, choice, scan, assign) ==
      AddRoot(t, FindEsp(t).value, Largest(scan(t)).value.length, assign)
  {
  }

  /** Exactly when dual-boot partitions: an ESP exists, a free range exists,
      the size check passes (by size or by a "Yes"), the request fits `u64`
      and the crate accepts the root. */
  lemma DualBootPartitionsExactly(t: Table, choice: Option<string>, scan: Scanner, assign: Assigner)
    ensures PlanFor(true, t, choice, scan, assign).outcome.Partitioned? <==>
      && FindEsp(t).Some? && Largest(scan(t)).Some?
      && (|| 64 * SECTORS_PER_GIB <= Largest(scan(t)).value.length as int
          || (16 * SECTORS_PER_GIB <= Largest(scan(t)).value.length as int && choice == Some("Yes")))
      && RootRequestBytes(Largest(scan(t)).value.length).Some?
      && assign(t, RootEntry(RootRequestBytes(Largest(scan(t)).value.length).value)).Some?
  {
    match FindEsp(t)
    case None =>
    case Some(esp) =>
      match Largest(scan(t))
      case None =>
      case Some(range) =>
        if Classify(range.length) == AskFirst && choice != Some("Yes") {
          assert !AskYesNo(choice).Ok? || !AskYesNo(choice).value;
        }
  }

  /** Fresh install goes on to request the root once the ESP is added and a
      free range exists. */
  lemma FreshInstallProceeds(t: Table, choice: Option<string>, scan: Scanner, assign: Assigner)
    requires assign(map[], ESP_ENTRY).Some? && Largest(scan(FreshEspOnly(assign))).Some?
    ensures PlanFor(false, t, choice, scan, assign) ==
      AddRoot(FreshEspOnly(assign), assign(map[], ESP_ENTRY).value,
              Largest(scan(FreshEspOnly(assign))).value.length, assign)
  {
    var empty: Table := map[];
    assert empty[assign(empty, ESP_ENTRY).value := ESP_ENTRY] == FreshEspOnly(assign);
  }

  /** On a table with 1-based indices, both indices handed on to formatting
      are at least 1, and the final table is 1-based too. */
  lemma PartitionedIndicesOneBased(dualboot: bool, t: Table, choice: Option<string>, scan: Scanner, assign: Assigner)
    requires AssignsUnusedIndices(assign)
    requires OneBased(t)
    ensures var p := PlanFor(dualboot, t, choice, scan, assign);
      && OneBased(p.table)
      && (p.outcome.Partitioned? ==> 1 <= p.outcome.esp && 1 <= p.outcome.root)
  {
    var p := PlanFor(dualboot, t, choice, scan, assign);
    PartitionedIndicesDistinct(dualboot, t, choice, scan, assign);
    if dualboot {
      DualBootKeepsExistingEntries(t, choice, scan, assign);
      assert p.outcome.Partitioned? ==> p.outcome.esp in t;
    } else {
      FreshInstallLayout(t, choice, scan, assign);
      var empty: Table := map[];
      match assign(empty, ESP_ENTRY)
      case None =>
      case Some(esp) =>
        var withEsp := empty[esp := ESP_ENTRY];
        match Largest(scan(withEsp))
        case None =>
        case Some(range) =>
          AddRootEffect(withEsp, esp, range.length, assign);
    }
  }
}
