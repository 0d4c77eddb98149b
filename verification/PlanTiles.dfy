/** The whole list: its lengths add up to the gap, and so the partitions tile it. */
module PlanTiles {
  import opened Arithmetic
  import opened Bytes
  import opened GptFormat
  import opened GptImage
  import opened GptSpace
  import opened GptTable
  import opened Planner
  import opened Units
  import opened Wrappers

  /** The names that get a partition, in order. */
  function WantedNames(list: seq<string>, skip: bool): seq<string> {
    if list == [] then []
    else
      var name := list[|list| - 1];
      WantedNames(list[..|list| - 1], skip) + if skip && name == BOOTLOADER then [] else [name]
  }

  /** Every listed partition has a length. */
  predicate Named(o: PartOpts, list: seq<string>) {
    forall i :: 0 <= i < |list| ==> list[i] in o.len
  }

  function SumLen(job: Job, list: seq<string>): int
    requires Named(job.o, list)
  {
    if list == [] then 0
    else
      var name := list[|list| - 1];
      SumLen(job, list[..|list| - 1]) + if job.Skips(name) then 0 else job.LenMb(name)
  }

  /** How often a name is listed. */
  function Times(list: seq<string>, name: string): nat {
    if list == [] then 0 else Times(list[..|list| - 1], name) + if list[|list| - 1] == name then 1 else 0
  }

  /** How many listed partitions are to take what is left. */
  function Growing(o: PartOpts, list: seq<string>): nat
    requires Named(o, list)
  {
    if list == [] then 0 else Growing(o, list[..|list| - 1]) + if o.len[list[|list| - 1]] < 0 then 1 else 0
  }

  /** MiB of the listed partitions of fixed length, the boot loaders aside. */
  function FixedMb(o: PartOpts, list: seq<string>): nat
    requires Named(o, list)
  {
    if list == [] then 0
    else
      var name := list[|list| - 1];
      FixedMb(o, list[..|list| - 1]) + if !StartsWith(name, BOOTLOADER) && o.len[name] > 0 then o.len[name] else 0
  }

  /** No length is zero, and both boot loaders, the only names that start so, are bootMb long. */
  predicate Sound(o: PartOpts, list: seq<string>, bootMb: int) {
    && Named(o, list) && bootMb >= 1
    && forall i :: 0 <= i < |list| ==>
         && o.len[list[i]] != 0
         && (StartsWith(list[i], BOOTLOADER) ==> (list[i] == BOOTLOADER || list[i] == BOOTLOADER2) && o.len[list[i]] == bootMb)
  }

  /** x for every time the name is listed. */
  function ForEach(list: seq<string>, name: string, x: int): int {
    if list == [] then 0 else ForEach(list[..|list| - 1], name, x) + if list[|list| - 1] == name then x else 0
  }

  /** x for every partition that takes what is left. */
  function ForGrowing(o: PartOpts, list: seq<string>, x: int): int
    requires Named(o, list)
  {
    if list == [] then 0 else ForGrowing(o, list[..|list| - 1], x) + if o.len[list[|list| - 1]] < 0 then x else 0
  }

  lemma {:induction false} SumLenSplits(job: Job, list: seq<string>, bootMb: int)
    requires Sound(job.o, list, bootMb)
    ensures SumLen(job, list) ==
            FixedMb(job.o, list) + (if job.skip then 0 else ForEach(list, BOOTLOADER, bootMb))
            + ForEach(list, BOOTLOADER2, bootMb) + ForGrowing(job.o, list, U64(job.diskMb - job.ptnMb))
  {
    if list != [] {
      SumLenSplits(job, list[..|list| - 1], bootMb);
      assert StartsWith(BOOTLOADER, BOOTLOADER) && StartsWith(BOOTLOADER2, BOOTLOADER);
    }
  }

  lemma {:induction false} ForEachOnce(list: seq<string>, name: string, x: int)
    ensures Times(list, name) == 0 ==> ForEach(list, name, x) == 0
    ensures Times(list, name) == 1 ==> ForEach(list, name, x) == x
  {
    if list != [] {
      ForEachOnce(list[..|list| - 1], name, x);
    }
  }

  lemma {:induction false} ForGrowingOnce(o: PartOpts, list: seq<string>, x: int)
    requires Named(o, list)
    ensures Growing(o, list) == 0 ==> ForGrowing(o, list, x) == 0
    ensures Growing(o, list) == 1 ==> ForGrowing(o, list, x) == x
  {
    if list != [] {
      ForGrowingOnce(o, list[..|list| - 1], x);
    }
  }

  lemma {:induction false} SumSizesIsFixed(o: PartOpts, list: seq<string>)
    requires Named(o, list) && FixedMb(o, list) < 0x800_0000_0000
    ensures SumSizes(o, list) == Some(FixedMb(o, list) * MIB)
  {
    if list != [] {
      SumSizesIsFixed(o, list[..|list| - 1]);
    }
  }

  predicate LensPositive(job: Job, list: seq<string>)
    requires Named(job.o, list)
  {
    forall k :: 0 <= k < |list| && !job.Skips(list[k]) ==> 1 <= job.LenMb(list[k])
  }

  function NamesOf(placed: seq<Placed>): seq<string> {
    seq(|placed|, i requires 0 <= i < |placed| => placed[i].name)
  }

  /** Every partition has the length its option asks for. */
  predicate LensAsAsked(job: Job, placed: seq<Placed>) {
    forall k :: 0 <= k < |placed| ==> placed[k].name in job.o.len && placed[k].lenMb == job.LenMb(placed[k].name)
  }

  /** Creating a list whose lengths fit into the gap lays it end to end from the gap's start. */
  lemma {:induction false} MkPartsLays(job: Job, t: Table, g: Gap, list: seq<CString>)
    requires job.dev.lbaSize > 0 && GapReady(job.dev, t, g) && Named(job.o, list) && LensPositive(job, list)
    requires g.startMb + SumLen(job, list) <= g.endMb
    requires MkParts(job, list, Ctx(t, g.startMb, [])).Some?
    ensures var c := MkParts(job, list, Ctx(t, g.startMb, [])).value;
      && Laid(job, t, g, c) && c.nextMb == g.startMb + SumLen(job, list)
      && NamesOf(c.placed) == WantedNames(list, job.skip) && LensAsAsked(job, c.placed)
  {
    hide Laid, GapReady;
    if list == [] {
      LaidAtStart(job, t, g);
    } else {
      var init, name := list[..|list| - 1], list[|list| - 1];
      assert job.Skips(name) || 1 <= job.LenMb(name);
      MkPartsLays(job, t, g, init);
      var c := MkParts(job, init, Ctx(t, g.startMb, [])).value;
      if !job.Skips(name) {
        MkPartLays(job, t, g, name, c);
        MkPartAppends(job, name, c);
      }
    }
  }

  lemma MkPartAppends(job: Job, name: CString, c: Ctx)
    requires job.dev.lbaSize > 0 && MkPart(job, name, c).Some? && !job.Skips(name)
    requires 1 <= job.LenMb(name) < 0x1_0000_0000_0000_0000 && LensAsAsked(job, c.placed)
    ensures var c' := MkPart(job, name, c).value;
      NamesOf(c'.placed) == NamesOf(c.placed) + [name] && LensAsAsked(job, c'.placed)
  {
    hide CreatedIndex, Applied, FlagsOf, TypeOf;
    var c' := MkPart(job, name, c).value;
    assert c'.placed[..|c.placed|] == c.placed;
  }

  /** Lay the listed partitions into the gap from sector s to sector e: the sizes are summed up, the
      gap is trimmed to whole MiB, and the second boot loader takes the length of the first. */
  function Arrange(o: PartOpts, dev: Device, t: Table, list: seq<CString>, bootBytes: uint64, skip: bool, guids: nat -> Guid,
                   s: uint64, e: uint64): Option<Ctx>
    requires dev.lbaSize > 0
  {
    var total := SumSizes(o, list);
    if total.None? then None else
    var needed := ToMib(U64(total.value + bootBytes));
    var g := GapOf(dev, s, e);
    var available := U64(g.endMb - g.startMb);
    if available < U64(needed + MIN_DATA_MB) || BOOTLOADER !in o.len then None
    else MkParts(JobFor(o, dev, guids, needed, available, skip), list, Ctx(t, g.startMb, []))
  }

  function GapOf(dev: Device, s: uint64, e: uint64): Gap {
    Gap(ToMib(U64(s * dev.lbaSize)), ToMibFloor(U64(U64(e + 1) * dev.lbaSize)))
  }

  /** The check for space, in unsigned arithmetic, means space exactly if the gap does not end before
      it starts: where the gap holds no whole MiB boundary, the difference wraps and passes. */
  lemma SpaceCheckMeansSpace(g: Gap, needed: nat)
    requires g.startMb < 0x800_0000_0000 && g.endMb < 0x800_0000_0000 && needed + MIN_DATA_MB < 0x8000_0000_0000_0000
    ensures U64(g.endMb - g.startMb) >= U64(needed + MIN_DATA_MB) <==>
            g.endMb < g.startMb || g.endMb - g.startMb >= needed + MIN_DATA_MB
  {
    assert g.endMb < g.startMb ==> U64(g.endMb - g.startMb) == g.endMb - g.startMb + 0x1_0000_0000_0000_0000;
  }

  /** The options with the second boot loader's length settled. */
  function Matched(o: PartOpts): PartOpts
    requires BOOTLOADER in o.len
  {
    o.(len := o.len[BOOTLOADER2 := o.len[BOOTLOADER]])
  }

  function JobFor(o: PartOpts, dev: Device, guids: nat -> Guid, needed: uint64, available: uint64, skip: bool): Job
    requires BOOTLOADER in o.len
  {
    Job(Matched(o), dev, guids, needed, available, skip)
  }

  /** The list names each boot loader once and one partition that takes what is left, the sizes are
      of this world, and the bytes for the boot loaders come, in whole MiB, to what the list will use
      for them. */
  predicate GoodList(o: PartOpts, list: seq<string>, bootBytes: uint64, skip: bool) {
    && BOOTLOADER in o.len
    && Sound(Matched(o), list, o.len[BOOTLOADER])
    && Times(list, BOOTLOADER) == 1 && Times(list, BOOTLOADER2) == 1 && Growing(Matched(o), list) == 1
    && bootBytes < 0x4000_0000_0000_0000 && ToMib(bootBytes) == o.len[BOOTLOADER] * (if skip then 1 else 2)
    && FixedMb(Matched(o), list) + 2 * o.len[BOOTLOADER] + MIN_DATA_MB < 0x400_0000_0000
  }

  function SampleOpts(): PartOpts {
    PartOpts(map["bootloader" := 60, "boot" := 20, "system" := 2000, "data" := -1], map["boot" := "boot"], map[])
  }

  const SAMPLE_LIST: seq<CString> := ["bootloader", "bootloader2", "boot", "system", "data"]

  /** A list one name longer. */
  lemma Appended(o: PartOpts, l: seq<string>, name: string)
    requires Named(o, l) && name in o.len
    ensures Named(o, l + [name])
    ensures forall n :: Times(l + [name], n) == Times(l, n) + if name == n then 1 else 0
    ensures Growing(o, l + [name]) == Growing(o, l) + if o.len[name] < 0 then 1 else 0
    ensures FixedMb(o, l + [name])
            == FixedMb(o, l) + if !StartsWith(name, BOOTLOADER) && o.len[name] > 0 then o.len[name] else 0
  {
    assert (l + [name])[..|l|] == l;
  }

  /** A list as it is meant to be. */
  lemma SampleIsGood(skip: bool)
    ensures GoodList(SampleOpts(), SAMPLE_LIST, 60 * MIB * (if skip then 1 else 2), skip)
    ensures Named(Matched(SampleOpts()), SAMPLE_LIST) && FixedMb(Matched(SampleOpts()), SAMPLE_LIST) == 2020
  {
    hide Times, Growing, FixedMb;
    var o := Matched(SampleOpts());
    SampleNames();
    Nothing(o);
    Appended(o, [], "bootloader");
    Appended(o, ["bootloader"], "bootloader2");
    Appended(o, ["bootloader", "bootloader2"], "boot");
    Appended(o, ["bootloader", "bootloader2", "boot"], "system");
    Appended(o, ["bootloader", "bootloader2", "boot", "system"], "data");
    WholeMibMore(60 * (if skip then 1 else 2), 0);
    assert [] + ["bootloader"] == ["bootloader"];
    assert ["bootloader"] + ["bootloader2"] == ["bootloader", "bootloader2"];
    assert ["bootloader", "bootloader2"] + ["boot"] == ["bootloader", "bootloader2", "boot"];
    assert ["bootloader", "bootloader2", "boot"] + ["system"] == ["bootloader", "bootloader2", "boot", "system"];
    assert ["bootloader", "bootloader2", "boot", "system"] + ["data"] == SAMPLE_LIST;
  }

  lemma Nothing(o: PartOpts)
    ensures Named(o, []) && Growing(o, []) == 0 && FixedMb(o, []) == 0 && forall n :: Times([], n) == 0
  {
  }

  lemma SampleNames()
    ensures StartsWith("bootloader", BOOTLOADER) && StartsWith("bootloader2", BOOTLOADER)
    ensures !StartsWith("boot", BOOTLOADER) && !StartsWith("system", BOOTLOADER) && !StartsWith("data", BOOTLOADER)
    ensures "bootloader" != "bootloader2" && "boot" != "bootloader" && "boot" != "bootloader2"
    ensures "system" != "bootloader" && "system" != "bootloader2" && "data" != "bootloader" && "data" != "bootloader2"
  {
    assert |"bootloader"| == 10 && |"bootloader2"| == 11 && |"boot"| == 4 && |"system"| == 6 && |"data"| == 4;
  }

  /** A table on a disk of whole-MiB sector counts, and a free run in it. */
  predicate GoodGap(dev: Device, t: Table, s: uint64, e: uint64) {
    && dev.Valid() && MIB % dev.lbaSize == 0
    && WellLaid(t) && 1 <= t.header.firstUsable && t.header.lastUsable < dev.sectors
    && FreeRun(t, s, e)
  }

  /** Trimming a gap to whole MiB keeps it inside the gap. */
  lemma GapInside(dev: Device, t: Table, s: uint64, e: uint64)
    requires GoodGap(dev, t, s, e)
    ensures var g := GapOf(dev, s, e);
      && s * dev.lbaSize <= g.startMb * MIB && g.endMb * MIB <= (e + 1) * dev.lbaSize
      && 1 <= g.startMb && g.endMb < 0x800_0000_0000
      && (g.startMb <= g.endMb ==> GapReady(dev, t, g))
  {
    hide WellLaid, Free;
    assert Free(t, s) && Free(t, e) ==> 1 <= s <= e < dev.sectors by {
      FreeIsUsable(t, s);
      FreeIsUsable(t, e);
    }
    GapBytes(dev, s, e);
    var g := GapOf(dev, s, e);
    if g.startMb <= g.endMb {
      GapLbas(dev, g, s, e);
    }
  }

  lemma FreeIsUsable(t: Table, lba: int)
    ensures Free(t, lba) ==> t.header.firstUsable <= lba <= t.header.lastUsable
  {
  }

  lemma GapBytes(dev: Device, s: uint64, e: uint64)
    requires dev.Valid() && 1 <= s <= e < dev.sectors
    ensures var g := GapOf(dev, s, e);
      && 0 < s * dev.lbaSize <= g.startMb * MIB && g.endMb * MIB <= (e + 1) * dev.lbaSize <= dev.Size()
      && 1 <= g.startMb && g.endMb < 0x800_0000_0000
  {
    MulLe(1, s, dev.lbaSize);
    MulLe(s, e + 1, dev.lbaSize);
    MulLe(e + 1, dev.sectors, dev.lbaSize);
    ToWholeMib(s * dev.lbaSize, (e + 1) * dev.lbaSize);
  }

  lemma ToWholeMib(start: nat, end: nat)
    requires 0 < start <= end < 0x8000_0000_0000_0000
    ensures start <= ToMib(start) * MIB && 1 <= ToMib(start) && ToMibFloor(end) * MIB <= end
    ensures ToMibFloor(end) < 0x800_0000_0000
  {
    CeilingIsLeast(start, MIB);
  }

  lemma GapLbas(dev: Device, g: Gap, s: uint64, e: uint64)
    requires dev.Valid() && MIB % dev.lbaSize == 0 && g.startMb <= g.endMb < 0x800_0000_0000
    requires s * dev.lbaSize <= g.startMb * MIB && g.endMb * MIB <= (e + 1) * dev.lbaSize
    ensures s <= MibToLba(dev.lbaSize, g.startMb) && MibToLba(dev.lbaSize, g.endMb) <= e + 1
  {
    MibExact(dev.lbaSize, g.startMb);
    MibExact(dev.lbaSize, g.endMb);
    var a, b := MibToLba(dev.lbaSize, g.startMb), MibToLba(dev.lbaSize, g.endMb);
    MulCancel(s - 1, a, dev.lbaSize) by {
      assert (s - 1) * dev.lbaSize == s * dev.lbaSize - dev.lbaSize;
    }
    MulCancel(b - 1, e + 1, dev.lbaSize) by {
      assert (b - 1) * dev.lbaSize == b * dev.lbaSize - dev.lbaSize;
    }
  }

  /** Trimming takes less than a MiB off at either end. */
  lemma GapEdges(dev: Device, t: Table, s: uint64, e: uint64)
    requires GoodGap(dev, t, s, e)
    ensures GapOf(dev, s, e).startMb * MIB < s * dev.lbaSize + MIB
    ensures (e + 1) * dev.lbaSize < GapOf(dev, s, e).endMb * MIB + MIB
  {
    hide WellLaid, Free;
    assert Free(t, s) && Free(t, e);
    FreeIsUsable(t, s);
    FreeIsUsable(t, e);
    MulLe(1, s, dev.lbaSize);
    MulLe(s, e + 1, dev.lbaSize);
    MulLe(e + 1, dev.sectors, dev.lbaSize);
    Edges(s * dev.lbaSize, (e + 1) * dev.lbaSize);
  }

  lemma Edges(start: nat, end: nat)
    requires 0 < start <= end < 0x8000_0000_0000_0000
    ensures ToMib(U64(start)) * MIB < start + MIB && end < ToMibFloor(U64(end)) * MIB + MIB
  {
    CeilingIsLeast(start, MIB);
  }

  /** What a successful plan achieves: the listed partitions, in order and under their names, tile
      the whole MiB of the gap exactly; each has the length asked for, and the one that takes what
      is left has at least 350 MiB; entries not created are as before. */
  predicate Tiled(o: PartOpts, dev: Device, t: Table, list: seq<CString>, skip: bool, s: uint64, e: uint64, c: Ctx)
    requires dev.lbaSize > 0
  {
    var g := GapOf(dev, s, e);
    && s * dev.lbaSize <= g.startMb * MIB && g.endMb * MIB <= (e + 1) * dev.lbaSize
    && Chain(c.placed, g.startMb, g.endMb)
    && NamesOf(c.placed) == WantedNames(list, skip)
    && (forall k :: 0 <= k < |c.placed| ==>
          && InPlace(dev, c.table, c.placed[k])
          && c.placed[k].name in o.len
          && if o.len[c.placed[k].name] < 0 then c.placed[k].lenMb >= MIN_DATA_MB else c.placed[k].lenMb == o.len[c.placed[k].name])
    && WellLaid(c.table) && Untouched(t, c.table, c.placed)
  }

  /** The lengths of a good list add up to all that is available. */
  lemma LengthsAddUp(o: PartOpts, dev: Device, list: seq<string>, bootBytes: uint64, skip: bool, guids: nat -> Guid,
                     needed: uint64, available: uint64)
    requires GoodList(o, list, bootBytes, skip)
    requires needed == FixedMb(Matched(o), list) + o.len[BOOTLOADER] * (if skip then 1 else 2)
    requires needed + MIN_DATA_MB <= available
    ensures var job := JobFor(o, dev, guids, needed, available, skip);
      LensPositive(job, list) && SumLen(job, list) == available
  {
    var job := JobFor(o, dev, guids, needed, available, skip);
    SumLenSplits(job, list, o.len[BOOTLOADER]);
    ForEachOnce(list, BOOTLOADER, o.len[BOOTLOADER]);
    ForEachOnce(list, BOOTLOADER2, o.len[BOOTLOADER]);
    ForGrowingOnce(job.o, list, available - needed);
    assert U64(available - needed) == available - needed;
  }

  /** The space that the program computes for a good list, without wrapping. */
  lemma NeededIs(o: PartOpts, list: seq<string>, bootBytes: uint64, skip: bool)
    requires GoodList(o, list, bootBytes, skip)
    ensures SumSizes(o, list).Some?
    ensures ToMib(U64(SumSizes(o, list).value + bootBytes))
            == FixedMb(Matched(o), list) + o.len[BOOTLOADER] * (if skip then 1 else 2)
  {
    hide FixedMb, SumSizes, ToMib, Times, Growing;
    SumSizesIsFixed(Matched(o), list);
    SumSizesSettled(o, list);
    WholeMibMore(FixedMb(Matched(o), list), bootBytes);
  }

  /** Whole MiB pass through the rounding. */
  lemma WholeMibMore(mb: nat, bytes: uint64)
    requires mb < 0x400_0000_0000 && bytes < 0x4000_0000_0000_0000
    ensures U64(mb * MIB + bytes) == mb * MIB + bytes && ToMib(mb * MIB + bytes) == mb + ToMib(bytes)
  {
    CeilingIsLeast(bytes, MIB);
    CeilingIsLeast(mb * MIB + bytes, MIB);
  }

  /** The sum does not look at the boot loaders' lengths. */
  lemma {:induction false} SumSizesSettled(o: PartOpts, list: seq<string>)
    requires BOOTLOADER in o.len && Named(Matched(o), list)
    ensures SumSizes(o, list) == SumSizes(Matched(o), list)
  {
    if list != [] {
      SumSizesSettled(o, list[..|list| - 1]);
      assert StartsWith(BOOTLOADER2, BOOTLOADER);
    }
  }

  /** Laying a good list into a gap with room tiles the gap. */
  lemma ArrangeTiles(o: PartOpts, dev: Device, t: Table, list: seq<CString>, bootBytes: uint64, skip: bool,
                     guids: nat -> Guid, s: uint64, e: uint64)
    requires GoodGap(dev, t, s, e) && GoodList(o, list, bootBytes, skip)
    requires GapOf(dev, s, e).startMb <= GapOf(dev, s, e).endMb
    requires Arrange(o, dev, t, list, bootBytes, skip, guids, s, e).Some?
    ensures Tiled(Matched(o), dev, t, list, skip, s, e, Arrange(o, dev, t, list, bootBytes, skip, guids, s, e).value)
  {
    hide GoodList, Laid, GapReady, WellLaid, SumSizes, Chain, Untouched, MkParts, LensPositive, GapOf, ToMib;
    var g := GapOf(dev, s, e);
    var available := U64(g.endMb - g.startMb);
    NeededIs(o, list, bootBytes, skip);
    GapInside(dev, t, s, e);
    GoodListFacts(o, list, bootBytes, skip);
    var needed := ToMib(U64(SumSizes(o, list).value + bootBytes));
    assert available == g.endMb - g.startMb && needed + MIN_DATA_MB <= available;
    LengthsAddUp(o, dev, list, bootBytes, skip, guids, needed, available);
    var job := JobFor(o, dev, guids, needed, available, skip);
    MkPartsLays(job, t, g, list);
    LaidFacts(job, t, g, MkParts(job, list, Ctx(t, g.startMb, [])).value);
  }

  lemma GoodListFacts(o: PartOpts, list: seq<string>, bootBytes: uint64, skip: bool)
    requires GoodList(o, list, bootBytes, skip)
    ensures BOOTLOADER in o.len && Named(Matched(o), list)
    ensures FixedMb(Matched(o), list) + o.len[BOOTLOADER] * (if skip then 1 else 2) + MIN_DATA_MB < 0x800_0000_0000
    ensures o.len[BOOTLOADER] >= 1
  {
  }

  lemma LaidFacts(job: Job, t: Table, g: Gap, c: Ctx)
    requires job.dev.lbaSize > 0 && Laid(job, t, g, c)
    ensures WellLaid(c.table) && Chain(c.placed, g.startMb, c.nextMb) && Untouched(t, c.table, c.placed)
    ensures forall k :: 0 <= k < |c.placed| ==> InPlace(job.dev, c.table, c.placed[k])
  {
  }

  lemma {:induction false} MkPartsKeepsHeader(job: Job, list: seq<CString>, c: Ctx)
    requires job.dev.lbaSize > 0 && MkParts(job, list, c).Some?
    ensures var t' := MkParts(job, list, c).value.table; t'.header == c.table.header && |t'.entries| == |c.table.entries|
  {
    if list != [] {
      MkPartsKeepsHeader(job, list[..|list| - 1], c);
    }
  }

  lemma ArrangeKeepsHeader(o: PartOpts, dev: Device, t: Table, list: seq<CString>, bootBytes: uint64, skip: bool,
                           guids: nat -> Guid, s: uint64, e: uint64)
    requires dev.lbaSize > 0 && Arrange(o, dev, t, list, bootBytes, skip, guids, s, e).Some?
    ensures var t' := Arrange(o, dev, t, list, bootBytes, skip, guids, s, e).value.table;
      t'.header == t.header && |t'.entries| == |t.entries|
  {
    hide SumSizes, ToMib, MkParts;
    var needed := ToMib(U64(SumSizes(o, list).value + bootBytes));
    var g := GapOf(dev, s, e);
    MkPartsKeepsHeader(JobFor(o, dev, guids, needed, U64(g.endMb - g.startMb), skip), list, Ctx(t, g.startMb, []));
  }
}
