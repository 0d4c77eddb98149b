/** When the plan comes out: the space, the options of the listed partitions, and the slots left. */
module PlanSucceeds {
  import opened Bytes
  import opened GptFormat
  import opened GptImage
  import opened GptTable
  import opened PlanDual
  import opened Planner
  import opened PlanTiles
  import opened Units

  /** Slots not in use. */
  function FreeSlots(es: seq<Entry>): nat {
    if es == [] then 0 else FreeSlots(es[..|es| - 1]) + if Live(es[|es| - 1]) then 0 else 1
  }

  lemma {:induction false} FreeSlotsAfter(es: seq<Entry>, i: nat, e: Entry)
    requires i < |es| && !Live(es[i])
    ensures FreeSlots(es[i := e]) == FreeSlots(es) - if Live(e) then 1 else 0
    ensures FreeSlots(es) >= 1
  {
    hide Live;
    var last := |es| - 1;
    if i < last {
      assert es[i := e][..last] == es[..last][i := e];
      FreeSlotsAfter(es[..last], i, e);
    } else {
      assert es[i := e][..last] == es[..last];
    }
  }

  lemma {:induction false} NoFreeSlots(es: seq<Entry>)
    requires forall k :: 0 <= k < |es| ==> Live(es[k])
    ensures FreeSlots(es) == 0
  {
    if es != [] {
      NoFreeSlots(es[..|es| - 1]);
    }
  }

  /** Creation finds a slot exactly while there is one, and takes it unless the range starts at 0. */
  lemma CreationTakesSlot(es: seq<Entry>, s: Spec)
    requires |s.name| <= NAME_MAX
    ensures CreatedIndex(es, s) != 0 <==> FreeSlots(es) >= 1
    ensures CreatedIndex(es, s) != 0 ==>
              FreeSlots(Created(es, s)) == FreeSlots(es) - if s.first != 0 then 1 else 0
  {
    NextIndexIsSmallest(es, 0);
    var i := NextIndexFrom(es, 0);
    if i == 0 {
      NoFreeSlots(es);
    } else {
      FreeSlotsAfter(es, i - 1, Filled(es[i - 1], s));
    }
  }

  /** The options of a name are ones the program knows. */
  predicate Known(o: PartOpts, name: string) {
    && FlagsOf(if name in o.flags then o.flags[name] else []).Some?
    && TypeOf(if name in o.ptype then o.ptype[name] else "ext4").Some?
    && |name| <= ENTRY_NAME_MAX && name in o.len
  }

  /** One partition can be created exactly if its options are known and there is a slot. */
  lemma MkPartSucceeds(job: Job, name: CString, c: Ctx)
    requires job.dev.lbaSize > 0 && !job.Skips(name)
    ensures MkPart(job, name, c).Some? <==> Known(job.o, name) && FreeSlots(c.table.entries) >= 1
    ensures MkPart(job, name, c).Some? ==>
              FreeSlots(MkPart(job, name, c).value.table.entries)
              == FreeSlots(c.table.entries) - if MibToLba(job.dev.lbaSize, c.nextMb) != 0 then 1 else 0
  {
    hide Created, CreatedIndex, FreeSlots, FlagsOf, TypeOf, MibToLba;
    var wish := WishFor(job, name);
    if wish.Some? {
      CreationTakesSlot(c.table.entries,
                        SpecFor(job, name, wish.value.ptype, wish.value.flags, c.nextMb, wish.value.len, job.guids(|c.placed|)));
    }
  }

  predicate AllKnown(o: PartOpts, names: seq<string>) {
    forall k :: 0 <= k < |names| ==> Known(o, names[k])
  }

  lemma WantedGrows(list: seq<string>, skip: bool)
    requires list != []
    ensures var init, name := list[..|list| - 1], list[|list| - 1];
      WantedNames(list, skip) == if skip && name == BOOTLOADER then WantedNames(init, skip) else WantedNames(init, skip) + [name]
  {
  }

  lemma KnownGrows(o: PartOpts, names: seq<string>, name: string)
    ensures AllKnown(o, names + [name]) <==> AllKnown(o, names) && Known(o, name)
  {
    hide Known;
    assert AllKnown(o, names + [name]) ==> Known(o, (names + [name])[|names|]);
    assert forall k :: 0 <= k < |names| ==> (names + [name])[k] == names[k];
  }

  /** Enough slots and known options are always enough. */
  lemma {:induction false} MkPartsSucceed(job: Job, list: seq<CString>, c: Ctx)
    requires job.dev.lbaSize > 0 && AllKnown(job.o, WantedNames(list, job.skip))
    requires |WantedNames(list, job.skip)| <= FreeSlots(c.table.entries)
    ensures MkParts(job, list, c).Some?
    ensures FreeSlots(MkParts(job, list, c).value.table.entries) >= FreeSlots(c.table.entries) - |WantedNames(list, job.skip)|
  {
    hide MkPart, Known, FreeSlots, WantedNames, AllKnown;
    if list == [] {
      NothingWanted(job.skip);
    } else {
      var init, name := list[..|list| - 1], list[|list| - 1];
      WantedGrows(list, job.skip);
      KnownGrows(job.o, WantedNames(init, job.skip), name);
      MkPartsSucceed(job, init, c);
      var c1 := MkParts(job, init, c).value;
      if job.Skips(name) {
        SkippedStays(job, name, c1);
      } else {
        MkPartSucceeds(job, name, c1);
      }
    }
  }

  lemma NothingWanted(skip: bool)
    ensures WantedNames([], skip) == []
  {
  }

  /** In a gap that the list fits into they are needed, too: every partition takes a slot. */
  lemma {:induction false} MkPartsNeed(job: Job, t: Table, g: Gap, list: seq<CString>)
    requires job.dev.lbaSize > 0 && GapReady(job.dev, t, g) && Named(job.o, list) && LensPositive(job, list)
    requires g.startMb + SumLen(job, list) <= g.endMb
    requires MkParts(job, list, Ctx(t, g.startMb, [])).Some?
    ensures AllKnown(job.o, WantedNames(list, job.skip))
    ensures FreeSlots(MkParts(job, list, Ctx(t, g.startMb, [])).value.table.entries)
            == FreeSlots(t.entries) - |WantedNames(list, job.skip)|
  {
    hide MkPart, Known, FreeSlots, WantedNames, AllKnown, Laid, GapReady, MibToLba;
    if list == [] {
      NothingWanted(job.skip);
      NothingUnknown(job.o);
    } else {
      var init, name := list[..|list| - 1], list[|list| - 1];
      WantedGrows(list, job.skip);
      KnownGrows(job.o, WantedNames(init, job.skip), name);
      assert job.Skips(name) || 1 <= job.LenMb(name);
      MkPartsNeed(job, t, g, init);
      MkPartsLays(job, t, g, init);
      var c1 := MkParts(job, init, Ctx(t, g.startMb, [])).value;
      if job.Skips(name) {
        SkippedStays(job, name, c1);
      } else {
        MkPartSucceeds(job, name, c1);
        StartsPastZero(job, t, g, c1);
      }
    }
  }

  lemma NothingUnknown(o: PartOpts)
    ensures AllKnown(o, [])
  {
  }

  lemma StartsPastZero(job: Job, t: Table, g: Gap, c: Ctx)
    requires GapReady(job.dev, t, g) && Laid(job, t, g, c)
    ensures MibToLba(job.dev.lbaSize, c.nextMb) != 0
  {
    MibMonotone(job.dev.lbaSize, 0, c.nextMb);
  }

  /** Whether the list's options are known and the table has slots for it. */
  predicate Creatable(o: PartOpts, t: Table, list: seq<string>, skip: bool) {
    AllKnown(o, WantedNames(list, skip)) && |WantedNames(list, skip)| <= FreeSlots(t.entries)
  }

  /** A plan for a good list and a gap that does not end before it starts comes out exactly if the gap
      has the room, the options are known, and the table has the slots. */
  lemma ArrangeSucceedsExactly(o: PartOpts, dev: Device, t: Table, list: seq<CString>, bootBytes: uint64, skip: bool,
                               guids: nat -> Guid, s: uint64, e: uint64)
    requires GoodGap(dev, t, s, e) && GoodList(o, list, bootBytes, skip)
    requires GapOf(dev, s, e).startMb <= GapOf(dev, s, e).endMb
    ensures Named(Matched(o), list) && dev.lbaSize > 0
    ensures Arrange(o, dev, t, list, bootBytes, skip, guids, s, e).Some? <==>
              && GapOf(dev, s, e).endMb - GapOf(dev, s, e).startMb
                 >= FixedMb(Matched(o), list) + o.len[BOOTLOADER] * (if skip then 1 else 2) + MIN_DATA_MB
              && Creatable(Matched(o), t, list, skip)
  {
    hide GoodList, Laid, GapReady, WellLaid, SumSizes, MkParts, LensPositive, GapOf, ToMib, AllKnown, FreeSlots, WantedNames, FixedMb;
    var g := GapOf(dev, s, e);
    NeededIs(o, list, bootBytes, skip);
    GapInside(dev, t, s, e);
    GoodListFacts(o, list, bootBytes, skip);
    var needed := ToMib(U64(SumSizes(o, list).value + bootBytes));
    if needed + MIN_DATA_MB <= g.endMb - g.startMb {
      var available := g.endMb - g.startMb;
      var job := JobFor(o, dev, guids, needed, available, skip);
      LengthsAddUp(o, dev, list, bootBytes, skip, guids, needed, available);
      if Creatable(Matched(o), t, list, skip) {
        MkPartsSucceed(job, list, Ctx(t, g.startMb, []));
      }
      if MkParts(job, list, Ctx(t, g.startMb, [])).Some? {
        MkPartsNeed(job, t, g, list);
      }
    }
  }

  /** An installation beside Windows, for a good list and such a gap of the cleared table, comes out
      exactly if the system partition has a slot of the table and the plan comes out. */
  lemma DualBootSucceedsExactly(o: PartOpts, dev: Device, t: Table, list: seq<CString>, d: DualOpts, guids: nat -> Guid,
                                s: uint64, e: uint64)
    requires dev.lbaSize > 0 && Cleared(t, dev, d).Some? && GoodGap(dev, Cleared(t, dev, d).value, s, e)
    requires GoodList(Claimed(o, d), list, d.espSize, true)
    requires GapOf(dev, s, e).startMb <= GapOf(dev, s, e).endMb
    ensures Named(Matched(Claimed(o, d)), list)
    ensures DualBoot(o, dev, t, list, d, guids, s, e).Some? <==>
              && 1 <= d.espIndex <= |t.entries|
              && GapOf(dev, s, e).endMb - GapOf(dev, s, e).startMb
                 >= FixedMb(Matched(Claimed(o, d)), list) + ToMib(d.espSize) + MIN_DATA_MB
              && Creatable(Matched(Claimed(o, d)), Cleared(t, dev, d).value, list, true)
  {
    hide Arrange, GoodGap, GoodList, GapOf, Creatable, FixedMb, ToMib;
    var t1 := Cleared(t, dev, d).value;
    ArrangeSucceedsExactly(Claimed(o, d), dev, t1, list, d.espSize, true, guids, s, e);
    if Arrange(Claimed(o, d), dev, t1, list, d.espSize, true, guids, s, e).Some? {
      ArrangeKeepsHeader(Claimed(o, d), dev, t1, list, d.espSize, true, guids, s, e);
    }
  }
}
