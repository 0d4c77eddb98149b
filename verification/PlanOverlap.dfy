/** When the partitions of a plan that came out overlap: exactly where no free run is a MiB long. */
module PlanOverlap {
  import opened Arithmetic
  import opened Bytes
  import opened GptFormat
  import opened GptImage
  import opened GptSpace
  import opened GptTable
  import opened PlanDual
  import opened Planner
  import opened PlanTiles
  import opened Units
  import opened Wrappers

  /** Some free run of the table is at least a MiB long. */
  ghost predicate HasMib(dev: Device, t: Table) {
    exists a, b :: FreeRun(t, a, b) && (b + 1 - a) * dev.lbaSize >= MIB
  }

  /** The gap found does not end before it starts if there is such a run; and if it holds a whole MiB,
      there is. */
  lemma MibRunIsOrdered(dev: Device, t: Table, s: uint64, e: uint64)
    requires GoodGap(dev, t, s, e) && FirstLongest(t, s, e)
    ensures HasMib(dev, t) ==> GapOf(dev, s, e).startMb <= GapOf(dev, s, e).endMb
    ensures GapOf(dev, s, e).startMb < GapOf(dev, s, e).endMb ==> HasMib(dev, t)
  {
    hide WellLaid, Free, GapOf, GoodGap;
    var g, lo, hi := GapOf(dev, s, e), s * dev.lbaSize, (e + 1) * dev.lbaSize;
    GapInside(dev, t, s, e);
    GapEdges(dev, t, s, e);
    assert FreeRun(t, s, e);
    assert (e + 1 - s) * dev.lbaSize == hi - lo;
    if HasMib(dev, t) {
      var a, b :| FreeRun(t, a, b) && (b + 1 - a) * dev.lbaSize >= MIB;
      MulLe(b + 1 - a, e + 1 - s, dev.lbaSize);
    }
    WholeMibs(lo, hi, g.startMb, g.endMb);
  }

  lemma WholeMibs(lo: int, hi: int, startMb: int, endMb: int)
    requires lo <= startMb * MIB < lo + MIB && endMb * MIB <= hi < endMb * MIB + MIB
    ensures hi - lo >= MIB ==> startMb <= endMb
    ensures startMb < endMb ==> hi - lo >= MIB
  {
  }

  /** A count of MiB is small. */
  lemma MibIsSmall(bytes: uint64)
    ensures ToMib(bytes) <= 0x1000_0000_0000
  {
    var r := RoundUp(bytes, MIB);
    assert r / MIB * MIB <= r;
  }

  /** A plan that came out for the gap found has a gap that does not end before it starts exactly where
      some free run is a MiB long. */
  lemma OrderedExactly(o: PartOpts, dev: Device, t: Table, list: seq<CString>, bootBytes: uint64, skip: bool,
                       guids: nat -> Guid, s: uint64, e: uint64)
    requires GoodGap(dev, t, s, e) && FirstLongest(t, s, e)
    requires Arrange(o, dev, t, list, bootBytes, skip, guids, s, e).Some?
    ensures GapOf(dev, s, e).startMb <= GapOf(dev, s, e).endMb <==> HasMib(dev, t)
  {
    hide GoodGap, FirstLongest, HasMib, MkParts, SumSizes, GapOf, ToMib;
    MibRunIsOrdered(dev, t, s, e);
    MibIsSmall(U64(SumSizes(o, list).value + bootBytes));
  }

  /** What earlier partitions of a list took stays taken. */
  lemma {:induction false} PrefixStays(job: Job, list: seq<CString>, c: Ctx, k: nat, i: nat)
    requires job.dev.lbaSize > 0 && k <= |list| && MkParts(job, list, c).Some?
    ensures MkParts(job, list[..k], c).Some?
    ensures var t1, t2 := MkParts(job, list[..k], c).value.table, MkParts(job, list, c).value.table;
      |t2.entries| == |t1.entries| && t2.header == t1.header
      && (i < |t1.entries| && Live(t1.entries[i]) ==> t2.entries[i] == t1.entries[i])
    decreases |list|
  {
    hide MkPart, Live;
    if k == |list| {
      assert list[..k] == list;
    } else {
      var init := list[..|list| - 1];
      assert init[..k] == list[..k];
      PrefixStays(job, init, c, k, i);
      var c1 := MkParts(job, init, c).value;
      MkPartKeepsSize(job, list[|list| - 1], c1);
      if i < |c1.table.entries| && Live(c1.table.entries[i]) {
        MkPartSparesLive(job, list[|list| - 1], c1, i);
      }
    }
  }

  lemma MkPartKeepsSize(job: Job, name: CString, c: Ctx)
    requires job.dev.lbaSize > 0 && MkPart(job, name, c).Some?
    ensures var t' := MkPart(job, name, c).value.table; t'.header == c.table.header && |t'.entries| == |c.table.entries|
  {
    hide WishFor, SpecFor;
  }

  /** The first name that gets a partition. */
  function FirstWanted(job: Job, list: seq<string>): (k: nat)
    ensures k <= |list| && (k < |list| ==> !job.Skips(list[k])) && forall j :: 0 <= j < k ==> job.Skips(list[j])
  {
    if list == [] then 0
    else
      var k := FirstWanted(job, list[..|list| - 1]);
      if k < |list| - 1 then k else if job.Skips(list[|list| - 1]) then |list| else |list| - 1
  }

  lemma {:induction false} SkippedOnly(job: Job, list: seq<CString>, c: Ctx)
    requires job.dev.lbaSize > 0 && forall j :: 0 <= j < |list| ==> job.Skips(list[j])
    ensures MkParts(job, list, c) == Some(c)
  {
    if list != [] {
      SkippedOnly(job, list[..|list| - 1], c);
    }
  }

  /** The first partition of a list, with its range, is there in the end. */
  lemma FirstThere(job: Job, list: seq<CString>, t: Table, startMb: uint64) returns (i: nat, len: int)
    requires job.dev.lbaSize > 0 && FirstWanted(job, list) < |list|
    requires MkParts(job, list, Ctx(t, startMb, [])).Some? && MibToLba(job.dev.lbaSize, startMb) != 0
    ensures list[FirstWanted(job, list)] in job.o.len && len == job.LenMb(list[FirstWanted(job, list)])
    ensures i < |t.entries| && !Live(t.entries[i])
    ensures var t' := MkParts(job, list, Ctx(t, startMb, [])).value.table;
      && |t'.entries| == |t.entries| && t'.header == t.header
      && t'.entries[i].firstLba == MibToLba(job.dev.lbaSize, startMb)
      && t'.entries[i].lastLba == U64(MibToLba(job.dev.lbaSize, U64(startMb + len)) - 1)
  {
    hide MkPart, MibToLba, Job.LenMb;
    var k := FirstWanted(job, list);
    var c := Ctx(t, startMb, []);
    var first := list[..k + 1];
    assert first[..k] == list[..k];
    SkippedOnly(job, list[..k], c);
    i, len := OneCreated(job, list[k], c);
    PrefixStays(job, list, c, k + 1, i);
    LastOfMany(job, first, c);
  }

  lemma LastOfMany(job: Job, list: seq<CString>, c: Ctx)
    requires job.dev.lbaSize > 0 && list != []
    ensures MkParts(job, list, c)
            == (var before := MkParts(job, list[..|list| - 1], c);
                if before.None? then None else MkPart(job, list[|list| - 1], before.value))
  {
  }

  lemma OneCreated(job: Job, name: CString, c: Ctx) returns (i: nat, len: int)
    requires job.dev.lbaSize > 0 && !job.Skips(name)
    ensures MkPart(job, name, c).Some? ==>
              && name in job.o.len && len == job.LenMb(name)
              && i < |c.table.entries| && !Live(c.table.entries[i])
              && (var t' := MkPart(job, name, c).value.table;
                  && |t'.entries| == |c.table.entries| && t'.header == c.table.header
                  && t'.entries[i].firstLba == MibToLba(job.dev.lbaSize, c.nextMb)
                  && t'.entries[i].lastLba == U64(MibToLba(job.dev.lbaSize, U64(c.nextMb + len)) - 1))
  {
    hide FlagsOf, TypeOf, MibToLba;
    i, len := 0, 0;
    if MkPart(job, name, c).Some? {
      len := job.LenMb(name);
      var wish := WishFor(job, name).value;
      var s := SpecFor(job, name, wish.ptype, wish.flags, c.nextMb, len, job.guids(|c.placed|));
      CreateIsLocal(c.table.entries, s);
      i := CreatedIndex(c.table.entries, s) - 1;
    }
  }

  /** An entry of a well laid table in a slot that was free, all entries that were in use being there
      still, has taken a free run. */
  lemma TookFreeRun(t: Table, t': Table, i: nat)
    requires WellLaid(t') && t'.header == t.header && |t'.entries| == |t.entries| && i < |t.entries|
    requires !Live(t.entries[i]) && Live(t'.entries[i])
    requires forall j :: 0 <= j < |t.entries| && Live(t.entries[j]) ==> t'.entries[j] == t.entries[j]
    ensures FreeRun(t, t'.entries[i].firstLba, t'.entries[i].lastLba)
  {
    var e := t'.entries[i];
    assert InRange(e, t.header);
    forall lba | e.firstLba <= lba <= e.lastLba ensures Free(t, lba) {
      forall j | 0 <= j < |t.entries| && Live(t.entries[j]) ensures !(t.entries[j].firstLba <= lba <= t.entries[j].lastLba) {
        assert t'.entries[j] == t.entries[j];
        assert if i < j then !Overlap(t'.entries[i], t'.entries[j]) else !Overlap(t'.entries[j], t'.entries[i]);
      }
    }
  }

  /** Entries in use stay, so a new one of a well laid result has taken a free run. */
  lemma FirstTookFreeRun(job: Job, list: seq<CString>, t: Table, startMb: uint64, i: nat)
    requires job.dev.lbaSize > 0 && MkParts(job, list, Ctx(t, startMb, [])).Some?
    requires var t' := MkParts(job, list, Ctx(t, startMb, [])).value.table;
      WellLaid(t') && t'.header == t.header && |t'.entries| == |t.entries| && i < |t.entries| && Live(t'.entries[i])
    requires !Live(t.entries[i])
    ensures var e := MkParts(job, list, Ctx(t, startMb, [])).value.table.entries[i];
      FreeRun(t, e.firstLba, e.lastLba) && InRange(e, t.header)
  {
    hide WellLaid, MkParts;
    var t' := MkParts(job, list, Ctx(t, startMb, [])).value.table;
    forall j | 0 <= j < |t.entries| && Live(t.entries[j]) ensures t'.entries[j] == t.entries[j] {
      MkPartsSparesLive(job, list, Ctx(t, startMb, []), j);
    }
    TookFreeRun(t, t', i);
    LiveInRange(t', i);
  }

  lemma LiveInRange(t: Table, i: nat)
    requires WellLaid(t) && i < |t.entries| && Live(t.entries[i])
    ensures InRange(t.entries[i], t.header)
  {
  }

  /** A first partition of fixed length is a MiB long. */
  lemma FixedIsMib(dev: Device, t: Table, startMb: uint64, len: nat, last: uint64)
    requires dev.Valid() && MIB % dev.lbaSize == 0 && 1 <= startMb && 1 <= len && startMb + len < 0x1000_0000_0000
    requires last == U64(MibToLba(dev.lbaSize, U64(startMb + len)) - 1)
    requires FreeRun(t, MibToLba(dev.lbaSize, startMb), last)
    ensures HasMib(dev, t)
  {
    hide FreeRun;
    var first := MibToLba(dev.lbaSize, startMb);
    MibExact(dev.lbaSize, startMb);
    MibExact(dev.lbaSize, startMb + len);
    MibMonotone(dev.lbaSize, startMb, startMb + len);
    hide MibToLba;
    assert last + 1 == MibToLba(dev.lbaSize, startMb + len);
    assert (last + 1 - first) * dev.lbaSize == (last + 1) * dev.lbaSize - first * dev.lbaSize;
  }

  /** A first partition that takes what is left of an inverted gap ends before it starts, or beyond the
      disk. */
  lemma GrowingIsOut(dev: Device, g: Gap, needed: nat, len: int, last: uint64, lastUsable: uint64)
    requires dev.Valid() && MIB % dev.lbaSize == 0 && lastUsable < dev.sectors
    requires 1 <= g.startMb <= 0x800_0000_0000 && g.endMb < g.startMb && needed < 0x800_0000_0000
    requires len == U64(U64(g.endMb - g.startMb) - needed)
    requires last == U64(MibToLba(dev.lbaSize, U64(g.startMb + len)) - 1)
    ensures !(MibToLba(dev.lbaSize, g.startMb) <= last <= lastUsable)
  {
    WrappedSum(g.startMb, g.endMb, needed);
    var m := U64(g.startMb + len);
    SectorsAreFew(dev);
    if g.endMb >= needed {
      assert m == g.endMb - needed;
      MibMonotone(dev.lbaSize, m, g.startMb);
      if m > 0 {
        MibMonotone(dev.lbaSize, 0, m);
      }
      MibExact(dev.lbaSize, 0);
    } else {
      MibBeyond(dev, needed - g.endMb);
    }
  }

  lemma WrappedSum(start: uint64, end: uint64, needed: nat)
    requires start <= 0x800_0000_0000 && end < start && needed < 0x800_0000_0000
    ensures var len := U64(U64(end - start) - needed);
      U64(start + len) == if end >= needed then end - needed else 0x1_0000_0000_0000_0000 + end - needed
  {
    assert U64(end - start) == 0x1_0000_0000_0000_0000 + end - start;
  }

  lemma SectorsAreFew(dev: Device)
    requires dev.Valid()
    ensures dev.sectors < 0x8000_0000_0000_0000
  {
    MulLe(1, dev.lbaSize, dev.sectors);
  }

  /** A position just below 2^64 MiB is, in bytes cut to 64 bits, beyond every disk. */
  lemma MibBeyond(dev: Device, k: nat)
    requires dev.Valid() && MIB % dev.lbaSize == 0 && 1 <= k < 0x800_0000_0000
    ensures MibToLba(dev.lbaSize, 0x1_0000_0000_0000_0000 - k) > dev.sectors
  {
    var b, unit := dev.lbaSize, MIB / dev.lbaSize;
    var y := 0x1_0000_0000_0000_0000 - k * MIB;
    CutBytes(k);
    assert MIB == b * unit;
    var q := (0x1000_0000_0000 - k) * unit;
    assert y == b * q by {
      assert y == (0x1000_0000_0000 - k) * MIB;
      assert (0x1000_0000_0000 - k) * (b * unit) == b * ((0x1000_0000_0000 - k) * unit);
    }
    DivModUnique(y, b, q, 0);
    assert dev.sectors * b < 0x8000_0000_0000_0000 <= q * b;
    MulCancel(dev.sectors, q, b);
  }

  lemma CutBytes(k: nat)
    requires 1 <= k < 0x800_0000_0000
    ensures U64((0x1_0000_0000_0000_0000 - k) * MIB) == 0x1_0000_0000_0000_0000 - k * MIB >= 0x8000_0000_0000_0000
  {
    var all := 0x1_0000_0000_0000_0000;
    assert (all - k) * MIB == all * (MIB - 1) + (all - k * MIB);
    DivModUnique((all - k) * MIB, all, MIB - 1, all - k * MIB);
  }

  /** The partitions of a plan for a good list that came out overlap, or leave the usable range, exactly
      where no free run is a MiB long. */
  lemma WellLaidExactly(o: PartOpts, dev: Device, t: Table, list: seq<CString>, bootBytes: uint64, skip: bool,
                        guids: nat -> Guid, s: uint64, e: uint64)
    requires dev.lbaSize > 0 && GoodGap(dev, t, s, e) && FirstLongest(t, s, e) && GoodList(o, list, bootBytes, skip)
    requires Arrange(o, dev, t, list, bootBytes, skip, guids, s, e).Some?
    ensures WellLaid(Arrange(o, dev, t, list, bootBytes, skip, guids, s, e).value.table) <==> HasMib(dev, t)
  {
    hide GoodGap, FirstLongest, HasMib, GoodList, Arrange, WellLaid, GapOf;
    OrderedExactly(o, dev, t, list, bootBytes, skip, guids, s, e);
    if GapOf(dev, s, e).startMb <= GapOf(dev, s, e).endMb {
      ArrangeTiles(o, dev, t, list, bootBytes, skip, guids, s, e);
    } else if WellLaid(Arrange(o, dev, t, list, bootBytes, skip, guids, s, e).value.table) {
      InvertedIsShort(o, dev, t, list, bootBytes, skip, guids, s, e);
    }
  }

  lemma InvertedIsShort(o: PartOpts, dev: Device, t: Table, list: seq<CString>, bootBytes: uint64, skip: bool,
                        guids: nat -> Guid, s: uint64, e: uint64)
    requires dev.lbaSize > 0 && GoodGap(dev, t, s, e) && GoodList(o, list, bootBytes, skip)
    requires Arrange(o, dev, t, list, bootBytes, skip, guids, s, e).Some?
    requires GapOf(dev, s, e).endMb < GapOf(dev, s, e).startMb
    requires WellLaid(Arrange(o, dev, t, list, bootBytes, skip, guids, s, e).value.table)
    ensures HasMib(dev, t)
  {
    hide GoodGap, GoodList, HasMib, WellLaid, GapOf, SumSizes, ToMib, MkParts, FixedMb, MibToLba, FreeRun;
    var g := GapOf(dev, s, e);
    NeededIs(o, list, bootBytes, skip);
    GoodListFacts(o, list, bootBytes, skip);
    GapSmall(dev, t, s, e);
    var needed := ToMib(U64(SumSizes(o, list).value + bootBytes));
    var job := JobFor(o, dev, guids, needed, U64(g.endMb - g.startMb), skip);
    FirstExists(o, list, bootBytes, skip, job);
    LensSmall(o, list, bootBytes, skip, FirstWanted(job, list));
    FirstDecides(job, list, t, g, needed);
  }

  /** An inverted gap and a well laid result: the first partition shows a free run of a MiB. */
  lemma FirstDecides(job: Job, list: seq<CString>, t: Table, g: Gap, needed: uint64)
    requires job.dev.Valid() && MIB % job.dev.lbaSize == 0 && t.header.lastUsable < job.dev.sectors
    requires 1 <= g.startMb <= 0x800_0000_0000 && g.endMb < g.startMb && needed < 0x800_0000_0000
    requires job.diskMb == U64(g.endMb - g.startMb) && job.ptnMb == needed
    requires MibToLba(job.dev.lbaSize, g.startMb) != 0
    requires FirstWanted(job, list) < |list| && list[FirstWanted(job, list)] in job.o.len
    requires var l := job.o.len[list[FirstWanted(job, list)]]; l != 0 && l < 0x400_0000_0000
    requires MkParts(job, list, Ctx(t, g.startMb, [])).Some?
    requires WellLaid(MkParts(job, list, Ctx(t, g.startMb, [])).value.table)
    ensures HasMib(job.dev, t)
  {
    hide HasMib, WellLaid, MkParts, MibToLba, FreeRun, FirstWanted;
    var i, len := FirstThere(job, list, t, g.startMb);
    FirstTookFreeRun(job, list, t, g.startMb, i);
    var last := U64(MibToLba(job.dev.lbaSize, U64(g.startMb + len)) - 1);
    if job.o.len[list[FirstWanted(job, list)]] < 0 {
      GrowingIsOut(job.dev, g, needed, len, last, t.header.lastUsable);
    } else {
      FixedIsMib(job.dev, t, g.startMb, len, last);
    }
  }

  lemma GapSmall(dev: Device, t: Table, s: uint64, e: uint64)
    requires GoodGap(dev, t, s, e)
    ensures dev.Valid() && MIB % dev.lbaSize == 0 && t.header.lastUsable < dev.sectors
    ensures 1 <= GapOf(dev, s, e).startMb <= 0x800_0000_0000
    ensures MibToLba(dev.lbaSize, GapOf(dev, s, e).startMb) != 0
  {
    hide WellLaid, Free, GapOf, FreeRun;
    GapInside(dev, t, s, e);
    GapEdges(dev, t, s, e);
    SectorOnDisk(dev, t, s, e);
    MibMonotone(dev.lbaSize, 0, GapOf(dev, s, e).startMb);
  }

  lemma SectorOnDisk(dev: Device, t: Table, s: uint64, e: uint64)
    requires GoodGap(dev, t, s, e)
    ensures s * dev.lbaSize < 0x8000_0000_0000_0000
  {
    hide WellLaid, Free;
    assert Free(t, s);
    FreeIsUsable(t, s);
    MulLe(s, dev.sectors, dev.lbaSize);
  }

  lemma {:induction false} ListedIfTimes(list: seq<string>, name: string)
    ensures Times(list, name) > 0 ==> exists k :: 0 <= k < |list| && list[k] == name
  {
    if list != [] {
      var init := list[..|list| - 1];
      ListedIfTimes(init, name);
      if Times(init, name) > 0 {
        var k :| 0 <= k < |init| && init[k] == name;
        assert list[k] == name;
      }
    }
  }

  lemma FirstExists(o: PartOpts, list: seq<string>, bootBytes: uint64, skip: bool, job: Job)
    requires GoodList(o, list, bootBytes, skip)
    ensures FirstWanted(job, list) < |list|
  {
    hide FirstWanted;
    ListedIfTimes(list, BOOTLOADER2);
    var k :| 0 <= k < |list| && list[k] == BOOTLOADER2;
    assert |BOOTLOADER| == 10 && |BOOTLOADER2| == 11;
    assert !job.Skips(list[k]);
  }

  lemma {:induction false} FixedMbHolds(o: PartOpts, list: seq<string>, k: nat)
    requires Named(o, list) && k < |list| && !StartsWith(list[k], BOOTLOADER)
    ensures o.len[list[k]] <= FixedMb(o, list)
  {
    if k < |list| - 1 {
      FixedMbHolds(o, list[..|list| - 1], k);
    }
  }

  lemma LensSmall(o: PartOpts, list: seq<string>, bootBytes: uint64, skip: bool, k: nat)
    requires GoodList(o, list, bootBytes, skip) && k < |list|
    ensures list[k] in Matched(o).len && Matched(o).len[list[k]] != 0 && Matched(o).len[list[k]] < 0x400_0000_0000
  {
    hide FixedMb;
    if !StartsWith(list[k], BOOTLOADER) {
      FixedMbHolds(Matched(o), list, k);
    }
  }

  /** And so do those of an installation beside Windows, for the table cleared of what goes. */
  lemma DualBootWellLaidExactly(o: PartOpts, dev: Device, t: Table, list: seq<CString>, d: DualOpts, guids: nat -> Guid,
                                s: uint64, e: uint64)
    requires dev.lbaSize > 0 && DualBoot(o, dev, t, list, d, guids, s, e).Some?
    requires GoodGap(dev, Cleared(t, dev, d).value, s, e) && FirstLongest(Cleared(t, dev, d).value, s, e)
    requires GoodList(Claimed(o, d), list, d.espSize, true)
    ensures WellLaid(DualBoot(o, dev, t, list, d, guids, s, e).value) <==> HasMib(dev, Cleared(t, dev, d).value)
  {
    hide GoodGap, FirstLongest, HasMib, GoodList, Arrange, WellLaid, Cleared;
    var t1 := Cleared(t, dev, d).value;
    WellLaidExactly(Claimed(o, d), dev, t1, list, d.espSize, true, guids, s, e);
    RenameKeepsLayout(Arrange(Claimed(o, d), dev, t1, list, d.espSize, true, guids, s, e).value.table, d.espIndex);
  }
}
