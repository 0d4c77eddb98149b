/** The partitions of a plan are of the type, with the flags, and under the GUID that were asked for. */
module PlanAsked {
  import opened Bytes
  import opened GptFormat
  import opened GptImage
  import opened GptTable
  import opened PlanDual
  import opened Planner
  import opened PlanTiles
  import opened Units
  import opened Wrappers

  /** The last that a flag list says about a flag is to switch it on. */
  predicate SwitchedOn(list: seq<string>, name: string) {
    exists k :: 0 <= k < |list| && list[k] == name && forall j :: k < j < |list| ==> list[j] != "!" + name
  }

  lemma SwitchedByLast(list: seq<string>, name: string)
    requires list != []
    ensures var init, f := list[..|list| - 1], list[|list| - 1];
      SwitchedOn(list, name) <==> f == name || (f != "!" + name && SwitchedOn(init, name))
  {
    var init, f := list[..|list| - 1], list[|list| - 1];
    if SwitchedOn(list, name) && f != name {
      var k :| 0 <= k < |list| && list[k] == name && forall j :: k < j < |list| ==> list[j] != "!" + name;
      assert init[k] == name;
    }
    if f == name {
      assert list[|list| - 1] == name;
    } else if f != "!" + name && SwitchedOn(init, name) {
      var k :| 0 <= k < |init| && init[k] == name && forall j :: k < j < |init| ==> init[j] != "!" + name;
      assert list[k] == name;
    }
  }

  /** A flag is a word of the program, or one with an exclamation mark in front. */
  predicate IsFlag(f: string) {
    var word := if f != "" && f[0] == '!' then f[1..] else f;
    word in ["system", "boot", "ro", "hidden", "noauto"]
  }

  lemma Banged(f: string, name: string)
    requires name != "" && name[0] != '!'
    ensures f == "!" + name <==> f != "" && f[0] == '!' && f[1..] == name
    ensures f == name ==> f[0] != '!'
  {
    if f != "" && f[0] == '!' {
      assert f == "!" + f[1..];
    }
  }

  lemma Switched(before: FlagSet, word: string, on: bool)
    ensures var r := before.With(word, on);
      && (r.Some? <==> word in ["system", "boot", "ro", "hidden", "noauto"])
      && (r.Some? ==>
            r.value == FlagSet(if word == "system" then on else before.system, if word == "boot" then on else before.boot,
                               if word == "ro" then on else before.ro, if word == "hidden" then on else before.hidden,
                               if word == "noauto" then on else before.noauto))
  {
  }

  /** One word switches the flag it names, and no other. */
  lemma OneWord(before: FlagSet, f: string)
    ensures var off := f != "" && f[0] == '!';
      var r := before.With(if off then f[1..] else f, !off);
      && (r.Some? <==> IsFlag(f))
      && (r.Some? ==>
            && r.value.system == (f == "system" || (f != "!" + "system" && before.system))
            && r.value.boot == (f == "boot" || (f != "!" + "boot" && before.boot))
            && r.value.ro == (f == "ro" || (f != "!" + "ro" && before.ro))
            && r.value.hidden == (f == "hidden" || (f != "!" + "hidden" && before.hidden))
            && r.value.noauto == (f == "noauto" || (f != "!" + "noauto" && before.noauto)))
  {
    hide FlagSet.With;
    var off := f != "" && f[0] == '!';
    Switched(before, if off then f[1..] else f, !off);
    Banged(f, "system");
    Banged(f, "boot");
    Banged(f, "ro");
    Banged(f, "hidden");
    Banged(f, "noauto");
  }

  /** A list of flags is understood exactly where all its words are, and read so that the last word
      about a flag decides. */
  lemma {:induction false} LastWordDecides(list: seq<string>)
    ensures FlagsOf(list).Some? <==> forall k :: 0 <= k < |list| ==> IsFlag(list[k])
    ensures FlagsOf(list).Some? ==>
              FlagsOf(list).value == FlagSet(SwitchedOn(list, "system"), SwitchedOn(list, "boot"), SwitchedOn(list, "ro"),
                                             SwitchedOn(list, "hidden"), SwitchedOn(list, "noauto"))
  {
    hide SwitchedOn, IsFlag, FlagSet.With;
    if list == [] {
      NothingOn();
    } else {
      var init, f := list[..|list| - 1], list[|list| - 1];
      LastWordDecides(init);
      assert (forall k :: 0 <= k < |list| ==> IsFlag(list[k])) <==> (forall k :: 0 <= k < |init| ==> IsFlag(init[k])) && IsFlag(f);
      if FlagsOf(init).Some? {
        OneWord(FlagsOf(init).value, f);
        SwitchedByLast(list, "system");
        SwitchedByLast(list, "boot");
        SwitchedByLast(list, "ro");
        SwitchedByLast(list, "hidden");
        SwitchedByLast(list, "noauto");
      }
    }
  }

  lemma NothingOn()
    ensures forall name :: !SwitchedOn([], name)
  {
  }

  /** The attribute bits of a flag list: bits 0, 2, 60, 62 and 63. */
  function AttributesFor(list: seq<string>): int {
    (if SwitchedOn(list, "system") then 1 else 0) + (if SwitchedOn(list, "boot") then 4 else 0)
    + (if SwitchedOn(list, "ro") then 1152921504606846976 else 0) + (if SwitchedOn(list, "hidden") then 4611686018427387904 else 0)
    + (if SwitchedOn(list, "noauto") then 9223372036854775808 else 0)
  }

  /** The entry of the k-th placed partition is what its options and the source of GUIDs ask for, on the
      sectors of its range. A range that starts at zero leaves the entry unused, and a later one in its slot. */
  predicate AsAsked(o: PartOpts, dev: Device, guids: nat -> Guid, t: Table, p: Placed, k: nat)
    requires dev.lbaSize > 0
  {
    MibToLba(dev.lbaSize, p.startMb) != 0 ==>
      && 1 <= p.index <= |t.entries|
      && var e := t.entries[p.index - 1];
      && e.firstLba == MibToLba(dev.lbaSize, p.startMb)
      && e.flags == AttributesFor(if p.name in o.flags then o.flags[p.name] else [])
      && (p.name in o.ptype ==> TypeOf(o.ptype[p.name]).Some?)
      && e.typeGuid == TypeGuid(if p.name in o.ptype then TypeOf(o.ptype[p.name]).value else Linux)
      && e.partGuid == guids(k)
  }

  predicate AllAsAsked(o: PartOpts, dev: Device, guids: nat -> Guid, t: Table, placed: seq<Placed>)
    requires dev.lbaSize > 0
  {
    forall k :: 0 <= k < |placed| ==> AsAsked(o, dev, guids, t, placed[k], k)
  }

  lemma AskedStays(o: PartOpts, dev: Device, guids: nat -> Guid, t: Table, s: Spec, p: Placed, k: nat)
    requires dev.lbaSize > 0 && AsAsked(o, dev, guids, t, p, k) && CreatedIndex(t.entries, s) != 0
    ensures AsAsked(o, dev, guids, Applied(t, Create(s)), p, k)
  {
    hide AttributesFor, TypeGuid, MibToLba;
    CreateIsLocal(t.entries, s);
  }

  lemma NewIsAsked(job: Job, name: CString, c: Ctx)
    requires job.dev.lbaSize > 0 && MkPart(job, name, c).Some? && !job.Skips(name)
    ensures var c' := MkPart(job, name, c).value;
      && |c'.placed| == |c.placed| + 1 && c'.placed[..|c.placed|] == c.placed
      && AsAsked(job.o, job.dev, job.guids, c'.table, c'.placed[|c.placed|], |c.placed|)
  {
    hide FlagsOf, TypeGuid, MibToLba, SwitchedOn, Created, CreatedIndex;
    var wish := WishFor(job, name).value;
    LastWordDecides(if name in job.o.flags then job.o.flags[name] else []);
    CreateIsLocal(c.table.entries, SpecFor(job, name, wish.ptype, wish.flags, c.nextMb, wish.len, job.guids(|c.placed|)));
  }

  lemma OldStayAsked(job: Job, name: CString, c: Ctx)
    requires job.dev.lbaSize > 0 && MkPart(job, name, c).Some? && !job.Skips(name)
    requires AllAsAsked(job.o, job.dev, job.guids, c.table, c.placed)
    ensures var c' := MkPart(job, name, c).value;
      |c'.placed| > |c.placed| && forall k :: 0 <= k < |c.placed| ==> AsAsked(job.o, job.dev, job.guids, c'.table, c'.placed[k], k)
  {
    hide FlagsOf, TypeOf, AsAsked, Created, CreatedIndex;
    var wish := WishFor(job, name).value;
    var s := SpecFor(job, name, wish.ptype, wish.flags, c.nextMb, wish.len, job.guids(|c.placed|));
    forall k | 0 <= k < |c.placed|
      ensures AsAsked(job.o, job.dev, job.guids, MkPart(job, name, c).value.table, MkPart(job, name, c).value.placed[k], k)
    {
      AskedStays(job.o, job.dev, job.guids, c.table, s, c.placed[k], k);
    }
  }

  lemma {:induction false} ListIsAsked(job: Job, list: seq<CString>, t: Table, startMb: uint64)
    requires job.dev.lbaSize > 0 && MkParts(job, list, Ctx(t, startMb, [])).Some?
    ensures var c := MkParts(job, list, Ctx(t, startMb, [])).value; AllAsAsked(job.o, job.dev, job.guids, c.table, c.placed)
  {
    hide MkPart, AsAsked;
    if list != [] {
      var init, name := list[..|list| - 1], list[|list| - 1];
      ListIsAsked(job, init, t, startMb);
      var c := MkParts(job, init, Ctx(t, startMb, [])).value;
      if job.Skips(name) {
        SkippedStays(job, name, c);
      } else {
        OldStayAsked(job, name, c);
        NewIsAsked(job, name, c);
      }
    }
  }

  /** For every list and every gap: a plan that comes out has the entries that were asked for. */
  lemma PlannedAsAsked(o: PartOpts, dev: Device, t: Table, list: seq<CString>, bootBytes: uint64, skip: bool,
                       guids: nat -> Guid, s: uint64, e: uint64)
    requires dev.lbaSize > 0 && Arrange(o, dev, t, list, bootBytes, skip, guids, s, e).Some?
    ensures var c := Arrange(o, dev, t, list, bootBytes, skip, guids, s, e).value;
      AllAsAsked(o, dev, guids, c.table, c.placed)
  {
    hide SumSizes, ToMib, MkParts, GapOf, AttributesFor, TypeOf, TypeGuid, MibToLba;
    var needed, g := ToMib(U64(SumSizes(o, list).value + bootBytes)), GapOf(dev, s, e);
    var job := JobFor(o, dev, guids, needed, U64(g.endMb - g.startMb), skip);
    ListIsAsked(job, list, t, g.startMb);
    var c := MkParts(job, list, Ctx(t, g.startMb, [])).value;
    SameAsked(job.o, dev, guids, c.table, c.placed, o, c.table);
  }

  /** Neither the lengths in the options nor the names of the entries matter for that. */
  lemma SameAsked(o: PartOpts, dev: Device, guids: nat -> Guid, t: Table, placed: seq<Placed>, o': PartOpts, t': Table)
    requires dev.lbaSize > 0 && AllAsAsked(o, dev, guids, t, placed)
    requires o'.ptype == o.ptype && o'.flags == o.flags
    requires |t'.entries| == |t.entries|
    requires forall i :: 0 <= i < |t.entries| ==> t'.entries[i] == t.entries[i].(name := t'.entries[i].name)
    ensures AllAsAsked(o', dev, guids, t', placed)
  {
    hide AttributesFor, TypeOf, TypeGuid, MibToLba;
    forall k | 0 <= k < |placed| ensures AsAsked(o', dev, guids, t', placed[k], k) {
      assert AsAsked(o, dev, guids, t, placed[k], k);
    }
  }

  /** The words for types, and the GUID that each stands for, told apart by the first field. */
  lemma TypeWords(s: string)
    ensures TypeOf(s).Some? <==> s in ["esp", "boot", "recovery", "tertiary", "misc", "metadata", "ext4", "vfat", "swap"]
    ensures TypeOf(s).Some? ==>
              var d := TypeGuid(TypeOf(s).value).data1;
              && (d == 0xc12a7328 <==> s == "esp") && (d == 0x0fc63daf <==> s == "ext4")
              && (d == 0xebd0a0a2 <==> s == "vfat") && (d == 0x0657fd6d <==> s == "swap")
              && (d == 0x49a4d17f <==> s == "boot") && (d == 0x4177c722 <==> s == "recovery")
              && (d == 0x767941d0 <==> s == "tertiary") && (d == 0xef32a33b <==> s == "misc")
              && (d == 0x20ac26be <==> s == "metadata")
  {
  }

  /** The partition that the firmware starts from: with the options the installer ships, the EFI system
      partition type, as its bytes are in the table, and the system and hidden bits. */
  lemma ShippedBootloader(o: PartOpts, dev: Device, guids: nat -> Guid, t: Table, p: Placed, k: nat)
    requires dev.lbaSize > 0 && AsAsked(o, dev, guids, t, p, k) && MibToLba(dev.lbaSize, p.startMb) != 0
    requires p.name == BOOTLOADER && p.name in o.ptype && o.ptype[p.name] == "esp"
    requires p.name in o.flags && o.flags[p.name] == ["system", "hidden"]
    ensures 1 <= p.index <= |t.entries|
    ensures t.entries[p.index - 1].flags == 0x4000_0000_0000_0001
    ensures t.entries[p.index - 1].typeGuid
            == GuidAt([0x28, 0x73, 0x2a, 0xc1, 0x1f, 0xf8, 0xd2, 0x11, 0xba, 0x4b, 0x00, 0xa0, 0xc9, 0x3e, 0xc9, 0x3b], 0)
  {
    hide MibToLba, GuidAt, TypeGuid;
    ShippedFlags(o.flags[p.name]);
    hide SwitchedOn;
    StandardTypes();
  }

  lemma ShippedFlags(list: seq<string>)
    requires list == ["system", "hidden"]
    ensures SwitchedOn(list, "system") && SwitchedOn(list, "hidden")
    ensures !SwitchedOn(list, "boot") && !SwitchedOn(list, "ro") && !SwitchedOn(list, "noauto")
  {
    assert list[0] == "system" && list[1] == "hidden";
  }
}
