/** Installing beside Windows: the old table, what is cleared away, and what must survive. */
module PlanDual {
  import opened Bytes
  import opened GptDevice
  import opened GptFormat
  import opened GptImage
  import opened GptTable
  import opened Planner
  import opened PlanErase
  import opened PlanTiles
  import opened Units
  import opened Wrappers

  /** What was found on the disk, and what the user chose; zero stands for "none". */
  datatype DualOpts = DualOpts(espSize: uint64, espIndex: nat, winIndex: nat, winResize: uint64, androidSize: uint64)

  /** The table after Windows is shrunk and an old installation deleted. */
  function Cleared(t: Table, dev: Device, d: DualOpts): Option<Table>
    requires dev.lbaSize > 0
  {
    if d.winResize != 0 && !(1 <= d.winIndex <= |t.entries|) then None
    else
      var es := if d.winResize != 0 then Shrunk(t.entries, d.winIndex, d.winResize, dev.lbaSize) else t.entries;
      Some(t.(entries := if d.androidSize != 0 then WithoutAndroid(es) else es))
  }

  /** The options once the EFI system partition stands in for the boot loader. */
  function Claimed(o: PartOpts, d: DualOpts): PartOpts {
    o.(len := o.len[BOOTLOADER := ToMib(d.espSize)])
  }

  /** The size that stands in for the boot loader's covers the EFI system partition, to the MiB, and is
      the one that is asked for. */
  lemma ClaimedCovers(o: PartOpts, d: DualOpts)
    requires d.espSize < 0x8000_0000_0000_0000
    ensures var o' := Claimed(o, d);
      && d.espSize <= o'.len[BOOTLOADER] * MIB < d.espSize + MIB && ToMib(d.espSize) == o'.len[BOOTLOADER]
      && o'.ptype == o.ptype && o'.flags == o.flags
      && (forall name :: name != BOOTLOADER ==> (name in o'.len <==> name in o.len) && (name in o.len ==> o'.len[name] == o.len[name]))
  {
    CeilingIsLeast(d.espSize, MIB);
  }

  const ESP_NAME: CString := "android_bootloader"

  lemma EspNameFits()
    ensures |ESP_NAME| <= NAME_MAX && AsciiOnly(ESP_NAME) == ESP_NAME && ESP_NAME == NAME_MAGIC + BOOTLOADER
  {
  }

  /** The EFI system partition takes the boot loader's name. */
  function Rename(t: Table, index: nat): Option<Table> {
    EspNameFits();
    if 1 <= index <= |t.entries| then Some(t.(entries := Renamed(t.entries, index, ESP_NAME))) else None
  }

  /** The whole of it: new partitions go into the gap from s to e of the cleared table. */
  function DualBoot(o: PartOpts, dev: Device, t: Table, list: seq<CString>, d: DualOpts, guids: nat -> Guid, s: uint64, e: uint64): Option<Table>
    requires dev.lbaSize > 0
  {
    if d.espIndex == 0 then None else
    var t1 := Cleared(t, dev, d);
    if t1.None? then None else
    var c := Arrange(Claimed(o, d), dev, t1.value, list, d.espSize, true, guids, s, e);
    if c.None? then None else Rename(c.value.table, d.espIndex)
  }

  /** Entry i of the table is to survive. */
  predicate Survives(t: Table, d: DualOpts, i: nat)
    requires i < |t.entries|
  {
    Live(t.entries[i]) && !(d.androidSize != 0 && IsAndroid(t.entries[i]))
  }

  /** The user's choice for Windows fits it: it is a partition that stays, and the new size is not
      larger. */
  predicate GoodShrink(t: Table, dev: Device, d: DualOpts) {
    d.winResize != 0 ==>
      && 1 <= d.winIndex <= |t.entries| && Live(t.entries[d.winIndex - 1]) && !IsAndroid(t.entries[d.winIndex - 1])
      && d.winResize < 0x8000_0000_0000_0000
      && d.winResize <= (t.entries[d.winIndex - 1].lastLba + 1 - t.entries[d.winIndex - 1].firstLba) * dev.lbaSize
  }

  /** A surviving entry after: the same but for Windows' end and the system partition's name. */
  predicate Preserved(before: Entry, after: Entry, d: DualOpts, i: nat, lbaSize: uint32) {
    && after.typeGuid == before.typeGuid && after.partGuid == before.partGuid && after.flags == before.flags
    && after.firstLba == before.firstLba
    && (if d.winResize != 0 && i + 1 == d.winIndex then
          after.firstLba <= after.lastLba <= before.lastLba && d.winResize <= (after.lastLba + 1 - after.firstLba) * lbaSize
        else after.lastLba == before.lastLba)
    && (if i + 1 == d.espIndex then GetName(after.name) == ESP_NAME else after.name == before.name)
  }

  lemma ClearedKeepsLayout(t: Table, dev: Device, d: DualOpts)
    requires dev.Valid() && WellLaid(t) && t.header.lastUsable < 0x8000_0000_0000_0000 && GoodShrink(t, dev, d)
    ensures var t1 := Cleared(t, dev, d);
      t1.Some? && WellLaid(t1.value) && t1.value.header == t.header && |t1.value.entries| == |t.entries|
  {
    hide WellLaid, IsAndroid, Shrunk;
    var es := if d.winResize != 0 then Shrunk(t.entries, d.winIndex, d.winResize, dev.lbaSize) else t.entries;
    if d.winResize != 0 {
      ShrinkingFits(t, d.winIndex, d.winResize, dev.lbaSize);
    }
    DeletingKeepsLayout(t.(entries := es));
  }

  /** A surviving entry after the clearing: the same but for Windows' end. */
  predicate KeptByClearing(a: Entry, b: Entry, d: DualOpts, i: nat, lbaSize: uint32) {
    && b == a.(lastLba := b.lastLba)
    && if d.winResize != 0 && i + 1 == d.winIndex then
         b.firstLba <= b.lastLba <= a.lastLba && d.winResize <= (b.lastLba + 1 - b.firstLba) * lbaSize
       else b.lastLba == a.lastLba
  }

  lemma SurvivorKept(t: Table, dev: Device, d: DualOpts, i: nat)
    requires dev.Valid() && WellLaid(t) && t.header.lastUsable < 0x8000_0000_0000_0000 && GoodShrink(t, dev, d)
    requires i < |t.entries| && Survives(t, d, i)
    ensures var t1 := Cleared(t, dev, d);
      t1.Some? && i < |t1.value.entries| && KeptByClearing(t.entries[i], t1.value.entries[i], d, i, dev.lbaSize)
  {
    hide WellLaid, GetName, IsAndroidName, Shrunk;
    if d.winResize != 0 {
      ShrinkingFits(t, d.winIndex, d.winResize, dev.lbaSize);
      OnlyEndMoves(t.entries, d.winIndex, d.winResize, dev.lbaSize);
    }
  }

  /** Creating partitions, however it goes, leaves every entry in use as it is. */
  lemma MkPartSparesLive(job: Job, name: CString, c: Ctx, i: nat)
    requires job.dev.lbaSize > 0 && MkPart(job, name, c).Some? && i < |c.table.entries| && Live(c.table.entries[i])
    ensures var t' := MkPart(job, name, c).value.table;
      t'.header == c.table.header && |t'.entries| == |c.table.entries| && t'.entries[i] == c.table.entries[i]
  {
    hide WishFor, SpecFor;
    NextIndexIsSmallest(c.table.entries, 0);
  }

  lemma {:induction false} MkPartsSparesLive(job: Job, list: seq<CString>, c: Ctx, i: nat)
    requires job.dev.lbaSize > 0 && MkParts(job, list, c).Some? && i < |c.table.entries| && Live(c.table.entries[i])
    ensures var t' := MkParts(job, list, c).value.table;
      t'.header == c.table.header && |t'.entries| == |c.table.entries| && t'.entries[i] == c.table.entries[i]
  {
    hide MkPart;
    if list != [] {
      MkPartsSparesLive(job, list[..|list| - 1], c, i);
      MkPartSparesLive(job, list[|list| - 1], MkParts(job, list[..|list| - 1], c).value, i);
    }
  }

  lemma ArrangeSparesLive(o: PartOpts, dev: Device, t: Table, list: seq<CString>, bootBytes: uint64, skip: bool,
                          guids: nat -> Guid, s: uint64, e: uint64, i: nat)
    requires dev.lbaSize > 0 && Arrange(o, dev, t, list, bootBytes, skip, guids, s, e).Some?
    requires i < |t.entries| && Live(t.entries[i])
    ensures var t' := Arrange(o, dev, t, list, bootBytes, skip, guids, s, e).value.table;
      t'.header == t.header && |t'.entries| == |t.entries| && t'.entries[i] == t.entries[i]
  {
    hide SumSizes, ToMib, MkParts;
    var needed := ToMib(U64(SumSizes(o, list).value + bootBytes));
    var g := GapOf(dev, s, e);
    MkPartsSparesLive(JobFor(o, dev, guids, needed, U64(g.endMb - g.startMb), skip), list, Ctx(t, g.startMb, []), i);
  }

  /** Windows and everything else that is not an old installation come through every successful run,
      whatever the list and the gap: if the table was well laid, entry i, if it is to survive, keeps
      its slot, GUIDs, flags, name and range, except that Windows may end earlier, with room for the
      size asked for, and the system partition is renamed. */
  lemma SurvivorsPreserved(o: PartOpts, dev: Device, t: Table, list: seq<CString>, d: DualOpts, guids: nat -> Guid,
                           s: uint64, e: uint64, i: nat)
    requires dev.Valid() && WellLaid(t) && t.header.lastUsable < 0x8000_0000_0000_0000 && GoodShrink(t, dev, d)
    requires DualBoot(o, dev, t, list, d, guids, s, e).Some?
    requires i < |t.entries| && Survives(t, d, i)
    ensures var t' := DualBoot(o, dev, t, list, d, guids, s, e).value;
      && t'.header == t.header && |t'.entries| == |t.entries|
      && Preserved(t.entries[i], t'.entries[i], d, i, dev.lbaSize)
  {
    hide WellLaid, Cleared, Arrange, SetName, GoodShrink, IsAndroid;
    ClearedKeepsLayout(t, dev, d);
    SurvivorKept(t, dev, d, i);
    ArrangeSparesLive(Claimed(o, d), dev, Cleared(t, dev, d).value, list, d.espSize, true, guids, s, e, i);
    RenameIsLocal(Arrange(Claimed(o, d), dev, Cleared(t, dev, d).value, list, d.espSize, true, guids, s, e).value.table, d.espIndex);
  }

  /** With a good list and a gap of the cleared table, no two partitions overlap in the end. */
  lemma DualBootKeepsLayout(o: PartOpts, dev: Device, t: Table, list: seq<CString>, d: DualOpts, guids: nat -> Guid,
                            s: uint64, e: uint64)
    requires dev.lbaSize > 0 && DualBoot(o, dev, t, list, d, guids, s, e).Some?
    requires GoodGap(dev, Cleared(t, dev, d).value, s, e) && GapOf(dev, s, e).startMb <= GapOf(dev, s, e).endMb
    requires GoodList(Claimed(o, d), list, d.espSize, true)
    ensures WellLaid(DualBoot(o, dev, t, list, d, guids, s, e).value)
  {
    hide WellLaid, Cleared, Arrange, GoodList, GoodGap, GapOf, Chain, InPlace, SetName;
    NewPartitionsTile(o, dev, t, list, d, guids, s, e);
    RenameKeepsLayout(Arrange(Claimed(o, d), dev, Cleared(t, dev, d).value, list, d.espSize, true, guids, s, e).value.table, d.espIndex);
  }

  /** The new partitions tile the gap that was found in the cleared table. */
  lemma NewPartitionsTile(o: PartOpts, dev: Device, t: Table, list: seq<CString>, d: DualOpts, guids: nat -> Guid,
                          s: uint64, e: uint64)
    requires dev.lbaSize > 0 && DualBoot(o, dev, t, list, d, guids, s, e).Some?
    requires GoodGap(dev, Cleared(t, dev, d).value, s, e) && GapOf(dev, s, e).startMb <= GapOf(dev, s, e).endMb
    requires GoodList(Claimed(o, d), list, d.espSize, true)
    ensures var t1 := Cleared(t, dev, d).value;
      var c := Arrange(Claimed(o, d), dev, t1, list, d.espSize, true, guids, s, e);
      && c.Some? && Tiled(Matched(Claimed(o, d)), dev, t1, list, true, s, e, c.value)
      && Rename(c.value.table, d.espIndex) == DualBoot(o, dev, t, list, d, guids, s, e)
  {
    hide Tiled, WellLaid, Cleared, Arrange, GoodList, GoodGap, GapOf;
    ArrangeTiles(Claimed(o, d), dev, Cleared(t, dev, d).value, list, d.espSize, true, guids, s, e);
  }

  lemma RenameIsLocal(t: Table, index: nat)
    requires 1 <= index <= |t.entries|
    ensures var t' := Rename(t, index).value;
      && t'.header == t.header && |t'.entries| == |t.entries|
      && (forall i :: 0 <= i < |t.entries| && i != index - 1 ==> t'.entries[i] == t.entries[i])
      && t'.entries[index - 1] == t.entries[index - 1].(name := t'.entries[index - 1].name)
      && GetName(t'.entries[index - 1].name) == ESP_NAME
  {
    EspNameFits();
    NameReadsBack(t.entries[index - 1].name, ESP_NAME);
  }

  lemma RenameKeepsLayout(t: Table, index: nat)
    requires 1 <= index <= |t.entries|
    ensures WellLaid(Rename(t, index).value) <==> WellLaid(t)
  {
    hide SetName;
    RenameIsLocal(t, index);
    var t' := Rename(t, index).value;
    if WellLaid(t) {
      SameRanges(t, t');
    }
    if WellLaid(t') {
      SameRanges(t', t);
    }
  }

  lemma SameRanges(t: Table, t': Table)
    requires WellLaid(t) && t'.header == t.header && |t'.entries| == |t.entries|
    requires forall i :: 0 <= i < |t.entries| ==>
               t'.entries[i].firstLba == t.entries[i].firstLba && t'.entries[i].lastLba == t.entries[i].lastLba
    ensures WellLaid(t')
  {
    forall i, j | 0 <= i < j < |t'.entries| && Live(t'.entries[i]) && Live(t'.entries[j])
      ensures !Overlap(t'.entries[i], t'.entries[j])
    {
      assert !Overlap(t.entries[i], t.entries[j]);
    }
  }
}
