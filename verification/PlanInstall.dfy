/** Whole installations: plan, write, and what the firmware reads afterwards. */
module PlanInstall {
  import opened Bytes
  import opened GptDevice
  import opened GptFormat
  import opened GptFresh
  import opened GptImage
  import opened GptSpace
  import opened GptTable
  import opened Planner
  import opened PlanAsked
  import opened PlanDual
  import opened PlanMargin
  import opened PlanOverlap
  import opened PlanSucceeds
  import opened PlanTiles
  import opened PlanTool
  import opened Storage
  import opened Units
  import opened Wrappers

  /** Creating the partitions of a list in a gap, all space checks behind it. */
  function CreatedInGap(o: PartOpts, dev: Device, t: Table, list: seq<CString>, neededMb: nat, skip: bool, guids: nat -> Guid, g: Gap): Option<Ctx>
    requires dev.lbaSize > 0 && BOOTLOADER in o.len && g.startMb <= g.endMb
  {
    MkParts(JobFor(o, dev, guids, U64(neededMb), g.endMb - g.startMb, skip), list, Ctx(t, g.startMb, []))
  }

  /** A plan for a good list fails for want of space only if the gap is short. */
  lemma ArrangeIsMkParts(o: PartOpts, dev: Device, t: Table, list: seq<CString>, bootBytes: uint64, skip: bool,
                         guids: nat -> Guid, s: uint64, e: uint64)
    requires GoodGap(dev, t, s, e) && GoodList(o, list, bootBytes, skip)
    requires var needed := FixedMb(Matched(o), list) + o.len[BOOTLOADER] * (if skip then 1 else 2);
      GapOf(dev, s, e).endMb - GapOf(dev, s, e).startMb >= needed + MIN_DATA_MB
    ensures GapOf(dev, s, e).startMb <= GapOf(dev, s, e).endMb
    ensures var needed := FixedMb(Matched(o), list) + o.len[BOOTLOADER] * (if skip then 1 else 2);
      Arrange(o, dev, t, list, bootBytes, skip, guids, s, e) == CreatedInGap(o, dev, t, list, needed, skip, guids, GapOf(dev, s, e))
  {
    hide SumSizes, ToMib, GapOf, MkParts, FixedMb, WellLaid;
    NeededIs(o, list, bootBytes, skip);
    GapInside(dev, t, s, e);
    GoodListFacts(o, list, bootBytes, skip);
  }

  /** A wipe asks for room for both boot loaders. */
  lemma WipeBytesAre(o: PartOpts)
    requires BOOTLOADER in o.len && 0 <= o.len[BOOTLOADER] < 0x400_0000_0000
    ensures WipeBytes(o) == 2 * o.len[BOOTLOADER] * MIB && ToMib(WipeBytes(o)) == 2 * o.len[BOOTLOADER]
  {
  }

  /** The sizes for which the interactive check asks before a wipe. */
  function WipeNeededMb(o: PartOpts, list: seq<string>): nat
    requires BOOTLOADER in o.len && Named(Matched(o), list) && o.len[BOOTLOADER] >= 0
  {
    FixedMb(Matched(o), list) + o.len[BOOTLOADER] * 2
  }

  /** A disk that passed the interactive check is never refused for want of space afterwards: with a
      good list, the program's plan for the fresh table is what creating the partitions yields. */
  lemma WipeNeverShortOfSpace(o: PartOpts, dev: Device, list: seq<CString>, diskGuid: Guid, guids: nat -> Guid, s: uint64, e: uint64)
    requires dev.Valid() && NEW_SPAN % dev.lbaSize == 0
    requires GoodList(o, list, WipeBytes(o), false)
    requires CliAccepts(dev, WipeNeededMb(o, list))
    requires FirstLongest(NewTable(dev, diskGuid), s, e)
    ensures GapOf(dev, s, e).startMb <= GapOf(dev, s, e).endMb
    ensures Arrange(o, dev, NewTable(dev, diskGuid), list, WipeBytes(o), false, guids, s, e)
            == CreatedInGap(o, dev, NewTable(dev, diskGuid), list, WipeNeededMb(o, list), false, guids, GapOf(dev, s, e))
  {
    hide Arrange, MkParts, NewTable, GapOf;
    MarginSuffices(dev, diskGuid, WipeNeededMb(o, list), s, e);
    ArrangeIsMkParts(o, dev, NewTable(dev, diskGuid), list, WipeBytes(o), false, guids, s, e);
  }

  lemma {:induction false} AllSlotsFree(es: seq<Entry>)
    requires forall k :: 0 <= k < |es| ==> !Live(es[k])
    ensures FreeSlots(es) == |es|
  {
    if es != [] {
      AllSlotsFree(es[..|es| - 1]);
    }
  }

  lemma FreshSlots(dev: Device, diskGuid: Guid)
    requires dev.lbaSize > 0
    ensures FreeSlots(NewTable(dev, diskGuid).entries) == NEW_ENTRIES
  {
    AllSlotsFree(NewTable(dev, diskGuid).entries);
  }

  /** What a wiped disk and the options must be for the plan to come out. */
  predicate WipeFits(o: PartOpts, dev: Device, list: seq<string>)
    requires BOOTLOADER in o.len && Named(Matched(o), list) && o.len[BOOTLOADER] >= 0
  {
    && UsableEnd(dev) / MIB - 1 >= WipeNeededMb(o, list) + MIN_DATA_MB
    && AllKnown(Matched(o), WantedNames(list, false)) && |WantedNames(list, false)| <= NEW_ENTRIES
  }

  /** On a wiped disk whose usable sectors reach past the first MiB, the plan for a good list comes out
      exactly if the whole MiB are enough, every option is known, and the list is not longer than the
      table. */
  lemma WipeSucceedsExactly(o: PartOpts, dev: Device, list: seq<CString>, diskGuid: Guid, guids: nat -> Guid, s: uint64, e: uint64)
    requires Suitable(dev) && FirstLongest(NewTable(dev, diskGuid), s, e) && UsableEnd(dev) >= MIB
    requires GoodList(o, list, WipeBytes(o), false)
    ensures BOOTLOADER in o.len && Named(Matched(o), list) && o.len[BOOTLOADER] >= 0
    ensures Arrange(o, dev, NewTable(dev, diskGuid), list, WipeBytes(o), false, guids, s, e).Some? <==> WipeFits(o, dev, list)
  {
    hide Arrange, NewTable, GapOf, FirstLongest, GoodList, AllKnown, WantedNames, FixedMb, GoodGap;
    WipedGapIs(dev, diskGuid, s, e);
    FreshGapIsGood(dev, diskGuid, s, e);
    FreshSlots(dev, diskGuid);
    GoodListFacts(o, list, WipeBytes(o), false);
    ArrangeSucceedsExactly(o, dev, NewTable(dev, diskGuid), list, WipeBytes(o), false, guids, s, e);
  }

  /** Whenever the plan for a good list comes out on a wiped disk, its partitions are in order exactly
      where the usable sectors reach past the first MiB. */
  lemma WipedWellLaid(o: PartOpts, dev: Device, list: seq<CString>, diskGuid: Guid, guids: nat -> Guid, s: uint64, e: uint64)
    requires Suitable(dev) && FirstLongest(NewTable(dev, diskGuid), s, e) && GoodList(o, list, WipeBytes(o), false)
    requires Arrange(o, dev, NewTable(dev, diskGuid), list, WipeBytes(o), false, guids, s, e).Some?
    ensures WellLaid(Arrange(o, dev, NewTable(dev, diskGuid), list, WipeBytes(o), false, guids, s, e).value.table)
            <==> UsableEnd(dev) >= MIB
  {
    hide NewTable, GoodGap, FirstLongest, HasMib, GoodList, Arrange, WellLaid, GapOf;
    var t := NewTable(dev, diskGuid);
    FreshGapIsGood(dev, diskGuid, s, e);
    WipedGapIs(dev, diskGuid, s, e);
    OrderedExactly(o, dev, t, list, WipeBytes(o), false, guids, s, e);
    WellLaidExactly(o, dev, t, list, WipeBytes(o), false, guids, s, e);
  }

  /** Where the usable sectors end in the first MiB, the check for space is passed all the same: a disk
      of 68 sectors, 34 KiB, for a list that asks for 2490 MiB. The partitions that come out are not in
      order. */
  lemma SmallDiskIsAccepted(diskGuid: Guid, guids: nat -> Guid)
    ensures var dev := Device(512, 68);
      && Suitable(dev) && UsableEnd(dev) < MIB
      && FirstLongest(NewTable(dev, diskGuid), 34, 34) && GapOf(dev, 34, 34) == Gap(1, 0)
      && GoodList(SampleOpts(), SAMPLE_LIST, WipeBytes(SampleOpts()), false)
      && (var r := Arrange(SampleOpts(), dev, NewTable(dev, diskGuid), SAMPLE_LIST, WipeBytes(SampleOpts()), false, guids, 34, 34);
          r.Some? && !WellLaid(r.value.table))
  {
    hide NewTable, FirstLongest, GoodList, AllKnown, WantedNames, FixedMb, FreeSlots, MkParts, SumSizes;
    var dev, o, l := Device(512, 68), SampleOpts(), SAMPLE_LIST;
    FreshIsFree(dev, diskGuid);
    UsableRange(dev, diskGuid);
    WipedGapIs(dev, diskGuid, 34, 34);
    SampleIsGood(false);
    assert WipeBytes(o) == 120 * MIB;
    NeededIs(o, l, WipeBytes(o), false);
    FreshSlots(dev, diskGuid);
    SampleIsKnown();
    MkPartsSucceed(JobFor(o, dev, guids, 2140, U64(-1), false), l, Ctx(NewTable(dev, diskGuid), 1, []));
    WipedWellLaid(o, dev, l, diskGuid, guids, 34, 34);
  }

  lemma SampleIsKnown()
    ensures WantedNames(SAMPLE_LIST, false) == SAMPLE_LIST && AllKnown(Matched(SampleOpts()), SAMPLE_LIST)
  {
    var l: seq<string> := SAMPLE_LIST;
    NothingSkipped(l);
  }

  lemma {:induction false} NothingSkipped(list: seq<string>)
    ensures WantedNames(list, false) == list
  {
    if list != [] {
      NothingSkipped(list[..|list| - 1]);
    }
  }

  /** Plan onto a wiped disk and write the table. */
  method InstallOnWipedDisk(crc: Checksum, disk: Disk, opts: Options, dev: Device, diskGuid: Guid, guids: nat -> Guid)
    returns (r: Option<Ctx>, s: uint64, e: uint64)
    requires Suitable(dev) && disk.data.Length == dev.Size()
    modifies disk`log, disk.data, opts`len
    ensures r.None? ==> disk.Contents() == old(disk.Contents())
    ensures r.Some? ==> BOOTLOADER in old(opts.len)
                        && r == Arrange(old(opts.Parts()), dev, NewTable(dev, diskGuid), opts.list, WipeBytes(old(opts.Parts())), false, guids, s, e)
                        && FirstLongest(NewTable(dev, diskGuid), s, e)
    ensures r.Some? ==> var read := ReadGpt(crc, disk.Contents(), dev);
              && read.Ok? && SameTable(read.table, r.value.table)
              && AllAsAsked(old(opts.Parts()), dev, guids, read.table, r.value.placed)
    ensures r.Some? && GoodList(old(opts.Parts()), opts.list, WipeBytes(old(opts.Parts())), false) ==>
              (WellLaid(ReadGpt(crc, disk.Contents(), dev).table) <==> UsableEnd(dev) >= MIB)
    ensures GoodList(old(opts.Parts()), opts.list, WipeBytes(old(opts.Parts())), false) && UsableEnd(dev) >= MIB ==>
              && BOOTLOADER in old(opts.len) && Named(Matched(old(opts.Parts())), opts.list) && old(opts.len[BOOTLOADER]) >= 0
              && (r.Some? <==> WipeFits(old(opts.Parts()), dev, opts.list))
              && (r.Some? ==> Tiled(Matched(old(opts.Parts())), dev, NewTable(dev, diskGuid), opts.list, false, s, e, r.value))
  {
    hide Arrange, NewTable, Written, ReadGpt, SameTable, Tiled, FirstLongest, GoodList, Sweepable, WipeFits, WellLaid, AllAsAsked;
    FreshIsFree(dev, diskGuid);
    ghost var o := opts.Parts();
    var gpt;
    r, gpt, s, e := ExecuteWipe(opts, dev, diskGuid, guids);
    if r.Some? {
      ArrangeKeepsHeader(o, dev, NewTable(dev, diskGuid), opts.list, WipeBytes(o), false, guids, s, e);
      FreshIsRoomy(gpt.Table(), dev, diskGuid);
      WriteThenRead(crc, disk.Contents(), gpt.Table(), dev);
      gpt.Write(crc, disk);
      PlannedAsAsked(o, dev, NewTable(dev, diskGuid), opts.list, WipeBytes(o), false, guids, s, e);
      SameAsked(o, dev, guids, r.value.table, r.value.placed, o, ReadGpt(crc, disk.Contents(), dev).table);
      if GoodList(o, opts.list, WipeBytes(o), false) {
        WipedWellLaid(o, dev, opts.list, diskGuid, guids, s, e);
        SameLaid(ReadGpt(crc, disk.Contents(), dev).table, gpt.Table());
      }
    }
    if GoodList(o, opts.list, WipeBytes(o), false) && UsableEnd(dev) >= MIB {
      WipeOutcome(o, dev, opts.list, diskGuid, guids, r, s, e);
    }
  }

  /** What the outcome of a wipe means, for a good list. */
  lemma WipeOutcome(o: PartOpts, dev: Device, list: seq<CString>, diskGuid: Guid, guids: nat -> Guid, r: Option<Ctx>, s: uint64, e: uint64)
    requires Suitable(dev) && UsableEnd(dev) >= MIB && GoodList(o, list, WipeBytes(o), false)
    requires r.Some? ==> FirstLongest(NewTable(dev, diskGuid), s, e)
                         && r == Arrange(o, dev, NewTable(dev, diskGuid), list, WipeBytes(o), false, guids, s, e)
    requires r.None? ==>
               || BOOTLOADER !in o.len || SumSizes(o, list).None? || (forall lba :: !Free(NewTable(dev, diskGuid), lba))
               || (FirstLongest(NewTable(dev, diskGuid), s, e)
                   && Arrange(o, dev, NewTable(dev, diskGuid), list, WipeBytes(o), false, guids, s, e).None?)
    ensures BOOTLOADER in o.len && Named(Matched(o), list) && o.len[BOOTLOADER] >= 0
    ensures r.Some? <==> WipeFits(o, dev, list)
    ensures r.Some? ==> Tiled(Matched(o), dev, NewTable(dev, diskGuid), list, false, s, e, r.value)
  {
    hide Arrange, NewTable, Tiled, FirstLongest, GoodList, WipeFits, SumSizes, Free, GapOf, GoodGap;
    var t := NewTable(dev, diskGuid);
    NeededIs(o, list, WipeBytes(o), false);
    GoodListFacts(o, list, WipeBytes(o), false);
    FreshIsFree(dev, diskGuid);
    SomethingIsFree(t, t.header.firstUsable, t.header.lastUsable);
    if FirstLongest(t, s, e) {
      WipedGapIs(dev, diskGuid, s, e);
      FreshGapIsGood(dev, diskGuid, s, e);
      WipeSucceedsExactly(o, dev, list, diskGuid, guids, s, e);
      if r.Some? {
        ArrangeTiles(o, dev, t, list, WipeBytes(o), false, guids, s, e);
      }
    }
  }

  lemma SomethingIsFree(t: Table, s: int, e: int)
    requires FirstLongest(t, s, e)
    ensures Free(t, s)
  {
    assert FreeRun(t, s, e);
  }

  lemma FreshGapIsGood(dev: Device, diskGuid: Guid, s: uint64, e: uint64)
    requires Suitable(dev) && FirstLongest(NewTable(dev, diskGuid), s, e)
    ensures GoodGap(dev, NewTable(dev, diskGuid), s, e)
  {
    hide NewTable;
    DividesMib(dev.lbaSize);
    FreshIsFree(dev, diskGuid);
    UsableRange(dev, diskGuid);
  }

  lemma FreshIsRoomy(t: Table, dev: Device, diskGuid: Guid)
    requires Suitable(dev) && t.Consistent() && t.header == NewTable(dev, diskGuid).header
    ensures Roomy(t, dev) && t.header.sig == EFI_PART
  {
    FreshPartsTile(dev, diskGuid);
    assert t.Span() == NewTable(dev, diskGuid).Span();
  }

  /** What the reader accepts is a table. */
  lemma ReadIsConsistent(crc: Checksum, disk: seq<byte>, dev: Device)
    requires ReadGpt(crc, disk, dev).Ok?
    ensures ReadGpt(crc, disk, dev).table.Consistent() && ReadGpt(crc, disk, dev).table.header.sig == EFI_PART
  {
    hide HeaderSum, DecodeHeader;
    CopyIsConsistent(crc, disk, dev, true);
    CopyIsConsistent(crc, disk, dev, false);
    hide ReadCopy;
  }

  lemma CopyIsConsistent(crc: Checksum, disk: seq<byte>, dev: Device, primary: bool)
    ensures var r := ReadCopy(crc, disk, dev, primary);
            r.Ok? ==> r.table.Consistent() && r.table.header.sig == EFI_PART
  {
    hide HeaderSum, DecodeHeader;
  }

  lemma DualBootKeepsHeader(o: PartOpts, dev: Device, t: Table, list: seq<CString>, d: DualOpts, guids: nat -> Guid,
                            s: uint64, e: uint64)
    requires dev.lbaSize > 0 && DualBoot(o, dev, t, list, d, guids, s, e).Some?
    ensures DualBoot(o, dev, t, list, d, guids, s, e).value.header == t.header
  {
    hide Arrange;
    ArrangeKeepsHeader(Claimed(o, d), dev, Cleared(t, dev, d).value, list, d.espSize, true, guids, s, e);
  }

  /** A table as a partitioning tool leaves it on this disk. */
  predicate Proper(dev: Device, t: Table) {
    && dev.Valid() && MIB % dev.lbaSize == 0
    && WellLaid(t) && 1 <= t.header.firstUsable <= t.header.lastUsable + 1 && t.header.lastUsable < dev.sectors
  }

  lemma ProperIsSweepable(dev: Device, t: Table, d: DualOpts)
    requires Proper(dev, t) && GoodShrink(t, dev, d)
    ensures t.header.lastUsable < 0x8000_0000_0000_0000
    ensures Cleared(t, dev, d).Some? && Sweepable(Cleared(t, dev, d).value)
    ensures forall s: uint64, e: uint64 :: FirstLongest(Cleared(t, dev, d).value, s, e) ==> GoodGap(dev, Cleared(t, dev, d).value, s, e)
  {
    hide WellLaid, Cleared, Free, GoodShrink;
    SectorsBelow(dev);
    ClearedKeepsLayout(t, dev, d);
  }

  /** What is read back after an installation beside Windows: everything that was to survive. */
  ghost predicate SurvivorsThere(before: Table, after: Table, dev: Device, d: DualOpts) {
    forall i :: 0 <= i < |before.entries| && Survives(before, d, i) ==>
      i < |after.entries| && Preserved(before.entries[i], after.entries[i], d, i, dev.lbaSize)
  }

  lemma AllSurvive(o: PartOpts, dev: Device, t: Table, list: seq<CString>, d: DualOpts, guids: nat -> Guid,
                   s: uint64, e: uint64, after: Table)
    requires dev.Valid() && WellLaid(t) && t.header.lastUsable < 0x8000_0000_0000_0000 && GoodShrink(t, dev, d)
    requires DualBoot(o, dev, t, list, d, guids, s, e).Some? && SameTable(after, DualBoot(o, dev, t, list, d, guids, s, e).value)
    ensures SurvivorsThere(t, after, dev, d)
  {
    hide WellLaid, DualBoot, GoodShrink, Preserved, Survives;
    forall i | 0 <= i < |t.entries| && Survives(t, d, i)
      ensures i < |after.entries| && Preserved(t.entries[i], after.entries[i], d, i, dev.lbaSize)
    {
      SurvivorsPreserved(o, dev, t, list, d, guids, s, e, i);
    }
  }

  lemma BesideTiles(o: PartOpts, dev: Device, t: Table, list: seq<CString>, d: DualOpts, guids: nat -> Guid,
                    s: uint64, e: uint64, after: Table)
    requires Proper(dev, t) && GoodShrink(t, dev, d) && GoodList(Claimed(o, d), list, d.espSize, true)
    requires Cleared(t, dev, d).Some? && FirstLongest(Cleared(t, dev, d).value, s, e)
    requires DualBoot(o, dev, t, list, d, guids, s, e).Some? && SameTable(after, DualBoot(o, dev, t, list, d, guids, s, e).value)
    ensures WellLaid(after) <==> HasMib(dev, Cleared(t, dev, d).value)
    ensures HasMib(dev, Cleared(t, dev, d).value) ==> Tiles(o, dev, Cleared(t, dev, d).value, list, d, guids, s, e, after)
  {
    hide WellLaid, DualBoot, GoodShrink, GoodList, GoodGap, Cleared, HasMib, FirstLongest, GapOf, Tiled, Arrange, Sweepable;
    ProperIsSweepable(dev, t, d);
    DualBootWellLaidExactly(o, dev, t, list, d, guids, s, e);
    SameLaid(after, DualBoot(o, dev, t, list, d, guids, s, e).value);
    MibRunIsOrdered(dev, Cleared(t, dev, d).value, s, e);
    if HasMib(dev, Cleared(t, dev, d).value) {
      NewPartitionsTile(o, dev, t, list, d, guids, s, e);
    }
  }

  /** The new partitions tile the gap of the cleared table t1, and with the system partition renamed
      they are the entries read back. */
  predicate Tiles(o: PartOpts, dev: Device, t1: Table, list: seq<CString>, d: DualOpts, guids: nat -> Guid,
                  s: uint64, e: uint64, after: Table)
    requires dev.lbaSize > 0
  {
    var c := Arrange(Claimed(o, d), dev, t1, list, d.espSize, true, guids, s, e);
    && c.Some? && Tiled(Matched(Claimed(o, d)), dev, t1, list, true, s, e, c.value)
    && Rename(c.value.table, d.espIndex).Some? && after.entries == Rename(c.value.table, d.espIndex).value.entries
  }

  lemma SameLaid(a: Table, b: Table)
    requires SameTable(a, b)
    ensures WellLaid(a) <==> WellLaid(b)
  {
  }

  /** Read the disk's table, install beside Windows, and write the table back. What is read afterwards
      has everything that was to survive; for a good list it is well laid exactly where the cleared table
      had a free run of a MiB, and then the new partitions tile the gap found. */
  method InstallBesideWindows(crc: Checksum, disk: Disk, opts: Options, dev: Device, d: DualOpts, guids: nat -> Guid)
    returns (ok: bool, s: uint64, e: uint64)
    requires dev.Valid() && disk.data.Length == dev.Size()
    requires ReadGpt(crc, disk.Contents(), dev).Ok? ==> Roomy(ReadGpt(crc, disk.Contents(), dev).table, dev)
    modifies disk`log, disk.data, opts`len
    ensures !ok ==> disk.Contents() == old(disk.Contents())
    ensures ok ==>
              && ReadGpt(crc, old(disk.Contents()), dev).Ok?
              && (var t := ReadGpt(crc, old(disk.Contents()), dev).table;
                  var r, read := DualBoot(old(opts.Parts()), dev, t, opts.list, d, guids, s, e), ReadGpt(crc, disk.Contents(), dev);
                  && r.Some? && read.Ok? && SameTable(read.table, r.value)
                  && Cleared(t, dev, d).Some?
                  && NewAsAsked(old(opts.Parts()), dev, Cleared(t, dev, d).value, opts.list, d, guids, s, e, read.table)
                  && (Sweepable(Cleared(t, dev, d).value) ==> FirstLongest(Cleared(t, dev, d).value, s, e)))
    ensures ok ==>
              var t, read := ReadGpt(crc, old(disk.Contents()), dev).table, ReadGpt(crc, disk.Contents(), dev).table;
              WellLaid(t) && t.header.lastUsable < 0x8000_0000_0000_0000 && GoodShrink(t, dev, d) ==>
                SurvivorsThere(t, read, dev, d)
    ensures ok ==>
              var t, read := ReadGpt(crc, old(disk.Contents()), dev).table, ReadGpt(crc, disk.Contents(), dev).table;
              Proper(dev, t) && GoodShrink(t, dev, d) && GoodList(Claimed(old(opts.Parts()), d), opts.list, d.espSize, true) ==>
                && (WellLaid(read) <==> HasMib(dev, Cleared(t, dev, d).value))
                && (HasMib(dev, Cleared(t, dev, d).value) ==>
                      Tiles(old(opts.Parts()), dev, Cleared(t, dev, d).value, opts.list, d, guids, s, e, read))
  {
    hide DualBoot, Written, ReadGpt, SameTable, FirstLongest, Sweepable, Cleared, WellLaid, GoodShrink, GoodList, HasMib, Tiled,
         Arrange, Proper, SurvivorsThere, Tiles, NewAsAsked;
    var gpt := new Gpt(dev);
    ok := gpt.Read(crc, disk);
    s, e := 0, 0;
    if ok {
      ghost var t, o := gpt.Table(), opts.Parts();
      ReadIsConsistent(crc, disk.Contents(), dev);
      ghost var cleared;
      ok, s, e, cleared := ExecuteDualBoot(gpt, opts, d, guids);
      if ok {
        DualBootKeepsHeader(o, dev, t, opts.list, d, guids, s, e);
        WriteThenRead(crc, disk.Contents(), gpt.Table(), dev);
        gpt.Write(crc, disk);
        BesideOutcome(o, dev, t, opts.list, d, guids, s, e, ReadGpt(crc, disk.Contents(), dev).table);
        BesideAsAsked(o, dev, t, opts.list, d, guids, s, e, ReadGpt(crc, disk.Contents(), dev).table);
      }
    }
  }

  /** The new partitions are what was asked for, whatever the list and the gap. */
  predicate NewAsAsked(o: PartOpts, dev: Device, t1: Table, list: seq<CString>, d: DualOpts, guids: nat -> Guid,
                       s: uint64, e: uint64, after: Table)
    requires dev.lbaSize > 0
  {
    var c := Arrange(Claimed(o, d), dev, t1, list, d.espSize, true, guids, s, e);
    c.Some? && AllAsAsked(o, dev, guids, after, c.value.placed)
  }

  lemma BesideAsAsked(o: PartOpts, dev: Device, t: Table, list: seq<CString>, d: DualOpts, guids: nat -> Guid,
                      s: uint64, e: uint64, after: Table)
    requires dev.lbaSize > 0 && Cleared(t, dev, d).Some?
    requires DualBoot(o, dev, t, list, d, guids, s, e).Some? && SameTable(after, DualBoot(o, dev, t, list, d, guids, s, e).value)
    ensures NewAsAsked(o, dev, Cleared(t, dev, d).value, list, d, guids, s, e, after)
  {
    hide Arrange, Cleared, AllAsAsked, SetName;
    var t1 := Cleared(t, dev, d).value;
    var c := Arrange(Claimed(o, d), dev, t1, list, d.espSize, true, guids, s, e).value;
    PlannedAsAsked(Claimed(o, d), dev, t1, list, d.espSize, true, guids, s, e);
    SameAsked(Claimed(o, d), dev, guids, c.table, c.placed, o, after);
  }

  lemma BesideOutcome(o: PartOpts, dev: Device, t: Table, list: seq<CString>, d: DualOpts, guids: nat -> Guid,
                      s: uint64, e: uint64, after: Table)
    requires dev.Valid() && Cleared(t, dev, d).Some?
    requires Sweepable(Cleared(t, dev, d).value) ==> FirstLongest(Cleared(t, dev, d).value, s, e)
    requires DualBoot(o, dev, t, list, d, guids, s, e).Some? && SameTable(after, DualBoot(o, dev, t, list, d, guids, s, e).value)
    ensures WellLaid(t) && t.header.lastUsable < 0x8000_0000_0000_0000 && GoodShrink(t, dev, d) ==>
              SurvivorsThere(t, after, dev, d)
    ensures Proper(dev, t) && GoodShrink(t, dev, d) && GoodList(Claimed(o, d), list, d.espSize, true) ==>
              && (WellLaid(after) <==> HasMib(dev, Cleared(t, dev, d).value))
              && (HasMib(dev, Cleared(t, dev, d).value) ==> Tiles(o, dev, Cleared(t, dev, d).value, list, d, guids, s, e, after))
  {
    hide DualBoot, SameTable, FirstLongest, Sweepable, Cleared, WellLaid, GoodShrink, GoodList, HasMib, Tiles,
         Proper, SurvivorsThere;
    if WellLaid(t) && t.header.lastUsable < 0x8000_0000_0000_0000 && GoodShrink(t, dev, d) {
      AllSurvive(o, dev, t, list, d, guids, s, e, after);
    }
    if Proper(dev, t) && GoodShrink(t, dev, d) && GoodList(Claimed(o, d), list, d.espSize, true) {
      ProperIsSweepable(dev, t, d);
      BesideTiles(o, dev, t, list, d, guids, s, e, after);
    }
  }
}
