/** The partition planner at work: options, the table in memory, and the two ways to install. */
module PlanTool {
  import opened Bytes
  import opened GptDevice
  import opened GptFormat
  import opened GptFresh
  import opened GptImage
  import opened GptSpace
  import opened GptTable
  import opened Planner
  import opened PlanDual
  import opened PlanErase
  import opened PlanTiles
  import opened Units
  import opened Wrappers

  /** The options of an installation, as far as partitions go. */
  class Options {
    const list: seq<CString>
    const ptype: map<string, string>
    const flags: map<string, seq<string>>
    var len: map<string, int>

    constructor (list: seq<CString>, ptype: map<string, string>, flags: map<string, seq<string>>, len: map<string, int>)
      ensures this.list == list && Parts() == PartOpts(len, ptype, flags)
    {
      this.list, this.ptype, this.flags, this.len := list, ptype, flags, len;
    }

    function Parts(): PartOpts
      reads this
    {
      PartOpts(len, ptype, flags)
    }

    /** Add up the listed sizes; None where the program stops. */
    method SumAll() returns (r: Option<uint64>)
      ensures r == SumSizes(Parts(), list)
    {
      var total: uint64 := 0;
      for i := 0 to |list|
        invariant SumSizes(Parts(), list[..i]) == Some(total)
      {
        assert list[..i + 1][..i] == list[..i];
        if !StartsWith(list[i], BOOTLOADER) {
          if list[i] !in len {
            NoSumBeyond(Parts(), list, i + 1);
            return None;
          }
          if len[list[i]] > 0 {
            total := U64(total + U64(len[list[i]] * MIB));
          }
        }
      }
      assert list[..|list|] == list;
      r := Some(total);
    }

    /** Read a list of flags. */
    method ParseFlags(name: string) returns (r: Option<FlagSet>)
      ensures r == FlagsOf(if name in flags then flags[name] else [])
    {
      var words := if name in flags then flags[name] else [];
      var found := NO_FLAGS;
      for i := 0 to |words|
        invariant FlagsOf(words[..i]) == Some(found)
      {
        assert words[..i + 1][..i] == words[..i];
        var next := if words[i] != "" && words[i][0] == '!' then found.With(words[i][1..], false) else found.With(words[i], true);
        if next.None? {
          NoFlagsBeyond(words, i + 1);
          return None;
        }
        found := next.value;
      }
      assert words[..|words|] == words;
      r := Some(found);
    }
  }

  lemma {:induction false} NoSumBeyond(o: PartOpts, list: seq<string>, i: nat)
    requires i <= |list| && SumSizes(o, list[..i]).None?
    ensures SumSizes(o, list).None?
    decreases |list| - i
  {
    if i == |list| {
      assert list[..i] == list;
    } else {
      assert list[..i + 1][..i] == list[..i];
      NoSumBeyond(o, list, i + 1);
    }
  }

  lemma {:induction false} NoFlagsBeyond(list: seq<string>, i: nat)
    requires i <= |list| && FlagsOf(list[..i]).None?
    ensures FlagsOf(list).None?
    decreases |list| - i
  {
    if i == |list| {
      assert list[..i] == list;
    } else {
      assert list[..i + 1][..i] == list[..i];
      NoFlagsBeyond(list, i + 1);
    }
  }

  /** The state carried from one partition to the next. */
  class PartMaker {
    const gpt: Gpt
    const job: Job
    var nextMb: uint64
    var placed: seq<Placed>

    constructor (gpt: Gpt, job: Job, startMb: uint64)
      ensures this.gpt == gpt && this.job == job && nextMb == startMb && placed == []
    {
      this.gpt, this.job, nextMb, placed := gpt, job, startMb, [];
    }

    function State(): Ctx
      reads this, gpt, gpt.entries
    {
      Ctx(gpt.Table(), nextMb, placed)
    }

    /** What the options say about a partition. */
    method Look(opts: Options, name: CString) returns (wish: Option<Wish>)
      requires opts.Parts() == job.o
      ensures wish == WishFor(job, name)
    {
      hide FlagsOf, TypeOf;
      var flags := opts.ParseFlags(name);
      if flags.None? || |name| > ENTRY_NAME_MAX || name !in opts.len {
        return None;
      }
      var len := opts.len[name];
      if len < 0 {
        len := U64(job.diskMb - job.ptnMb);
      }
      var t := TypeOf(if name in opts.ptype then opts.ptype[name] else "ext4");
      if t.None? {
        return None;
      }
      wish := Some(Wish(t.value, flags.value, len));
    }

    method MkPart(opts: Options, name: CString) returns (ok: bool)
      requires gpt.Valid() && job.dev.lbaSize > 0 && opts.Parts() == job.o
      modifies this, gpt.entries
      ensures gpt.Valid()
      ensures ok <==> Planner.MkPart(job, name, old(State())).Some?
      ensures ok ==> State() == Planner.MkPart(job, name, old(State())).value
    {
      hide Created, CreatedIndex, WishFor, MibToLba, Table.Consistent;
      if job.skip && name == BOOTLOADER {
        return true;
      }
      var wish := Look(opts, name);
      if wish.None? {
        return false;
      }
      var len := wish.value.len;
      var index := gpt.EntryCreate(
        Spec(NAME_MAGIC + name, wish.value.ptype, wish.value.flags.Mask(), MibToLba(job.dev.lbaSize, nextMb),
             U64(MibToLba(job.dev.lbaSize, U64(nextMb + len)) - 1), job.guids(|placed|)));
      if index == 0 {
        return false;
      }
      placed := placed + [Placed(name, index, nextMb, U64(len))];
      nextMb := U64(nextMb + len);
      ok := true;
    }
  }

  /** Bytes that an old installation takes up. */
  method CheckForAndroid(gpt: Gpt) returns (size: uint64)
    requires gpt.Valid()
    ensures size == AndroidBytes(gpt.Table().entries, gpt.dev.lbaSize)
  {
    size := 0;
    for i := 0 to gpt.header.numEntries
      invariant size == AndroidBytes(gpt.entries[..i], gpt.dev.lbaSize)
    {
      assert gpt.entries[..i + 1][..i] == gpt.entries[..i];
      var e := gpt.entries[i];
      if e.firstLba != 0 {
        var name := GetName(e.name);
        if StartsWith(name, NAME_MAGIC) && !(|name| == 18 && name[8..] == BOOTLOADER) {
          size := U64(size + EntrySize(e, gpt.dev.lbaSize));
        }
      }
    }
    assert gpt.entries[..gpt.header.numEntries] == gpt.entries[..];
  }

  /** Delete an old installation. */
  method DeleteAndroid(gpt: Gpt)
    requires gpt.Valid()
    modifies gpt.entries
    ensures gpt.Table() == old(gpt.Table()).(entries := WithoutAndroid(old(gpt.Table().entries)))
  {
    ghost var es := gpt.entries[..];
    for i := 0 to gpt.header.numEntries
      invariant gpt.Valid()
      invariant forall k :: 0 <= k < |es| ==>
        gpt.entries[k] == if k < i && IsAndroid(es[k]) then NoEntry(es[k].pad) else es[k]
    {
      var e := gpt.entries[i];
      if e.firstLba != 0 {
        var name := GetName(e.name);
        if StartsWith(name, NAME_MAGIC) && !(|name| == 18 && name[8..] == BOOTLOADER) {
          var ok := gpt.EntryDelete(i + 1);
        }
      }
    }
    assert gpt.entries[..] == WithoutAndroid(es);
  }

  /** Shrink the partition under a resized file system; false where the program stops. */
  method ResizeNtfs(gpt: Gpt, index: nat, newSize: uint64) returns (ok: bool)
    requires gpt.Valid() && gpt.dev.lbaSize > 0
    modifies gpt.entries
    ensures ok <==> 1 <= index <= |old(gpt.Table().entries)|
    ensures !ok ==> gpt.Table() == old(gpt.Table())
    ensures ok ==> gpt.Table() == old(gpt.Table()).(entries := Shrunk(old(gpt.Table().entries), index, newSize, gpt.dev.lbaSize))
  {
    if index == 0 || index > gpt.header.numEntries {
      return false;
    }
    ghost var es := gpt.entries[..];
    var e := gpt.entries[index - 1];
    gpt.entries[index - 1] := e.(lastLba := U64(U64(e.firstLba + ToUnitCeiling(newSize, gpt.dev.lbaSize)) - 1));
    assert gpt.entries[..] == Shrunk(es, index, newSize, gpt.dev.lbaSize);
    ok := true;
  }

  lemma {:induction false} NoPartsBeyond(job: Job, list: seq<CString>, c: Ctx, i: nat)
    requires job.dev.lbaSize > 0 && i <= |list| && MkParts(job, list[..i], c).None?
    ensures MkParts(job, list, c).None?
    decreases |list| - i
  {
    hide MkPart;
    if i == |list| {
      assert list[..i] == list;
    } else {
      assert list[..i + 1][..i] == list[..i];
      NoPartsBeyond(job, list, c, i + 1);
    }
  }

  /** Create the listed partitions one by one. */
  method CreateAll(maker: PartMaker, opts: Options) returns (ok: bool)
    requires maker.gpt.Valid() && maker.job.dev.lbaSize > 0 && opts.Parts() == maker.job.o
    modifies maker, maker.gpt.entries
    ensures maker.gpt.Valid()
    ensures ok <==> MkParts(maker.job, opts.list, old(maker.State())).Some?
    ensures ok ==> maker.State() == MkParts(maker.job, opts.list, old(maker.State())).value
  {
    hide Planner.MkPart;
    ghost var c := maker.State();
    for i := 0 to |opts.list|
      invariant maker.gpt.Valid()
      invariant MkParts(maker.job, opts.list[..i], c) == Some(maker.State())
    {
      assert opts.list[..i + 1][..i] == opts.list[..i];
      ok := maker.MkPart(opts, opts.list[i]);
      if !ok {
        NoPartsBeyond(maker.job, opts.list, c, i + 1);
        return false;
      }
    }
    assert opts.list[..|opts.list|] == opts.list;
    ok := true;
  }

  /** Lay the listed partitions into the largest gap; None where the program stops. */
  method CreatePartitions(gpt: Gpt, opts: Options, bootBytes: uint64, skip: bool, guids: nat -> Guid)
    returns (r: Option<Ctx>, s: uint64, e: uint64)
    requires gpt.Valid() && gpt.dev.lbaSize > 0
    modifies gpt.entries, opts`len
    ensures gpt.Valid()
    ensures r.Some? ==> r.value.table == gpt.Table()
    ensures r.Some? ==> r == Arrange(old(opts.Parts()), gpt.dev, old(gpt.Table()), opts.list, bootBytes, skip, guids, s, e)
    ensures r.Some? && Sweepable(old(gpt.Table())) ==> FirstLongest(old(gpt.Table()), s, e)
    ensures r.None? && Sweepable(old(gpt.Table())) ==>
              || SumSizes(old(opts.Parts()), opts.list).None?
              || (forall lba :: !Free(old(gpt.Table()), lba))
              || (FirstLongest(old(gpt.Table()), s, e)
                  && Arrange(old(opts.Parts()), gpt.dev, old(gpt.Table()), opts.list, bootBytes, skip, guids, s, e).None?)
  {
    hide Sweepable, FirstLongest, Free, SumSizes, MkParts, ToMib, ToMibFloor;
    s, e := 0, 0;
    var total := opts.SumAll();
    if total.None? {
      return None, s, e;
    }
    var needed := ToMib(U64(total.value + bootBytes));
    var found;
    found, s, e := gpt.FindContiguousFreeSpace();
    if !found {
      return None, s, e;
    }
    var startMb: int := ToMib(U64(s * gpt.dev.lbaSize));
    var endMb: int := ToMibFloor(U64(U64(e + 1) * gpt.dev.lbaSize));
    var available := U64(endMb - startMb);
    if available < U64(needed + MIN_DATA_MB) || BOOTLOADER !in opts.len {
      return None, s, e;
    }
    ghost var o := opts.Parts();
    opts.len := opts.len[BOOTLOADER2 := opts.len[BOOTLOADER]];
    var maker := new PartMaker(gpt, JobFor(PartOpts(opts.len, opts.ptype, opts.flags), gpt.dev, guids, needed, available, skip), startMb);
    assert maker.job == JobFor(o, gpt.dev, guids, needed, available, skip);
    var ok := CreateAll(maker, opts);
    if ok {
      r := Some(Ctx(gpt.Table(), maker.nextMb, maker.placed));
    } else {
      r := None;
    }
  }

  /** Install on a wiped disk: a fresh table, room for two boot loaders of the asked length. */
  method ExecuteWipe(opts: Options, dev: Device, diskGuid: Guid, guids: nat -> Guid)
    returns (r: Option<Ctx>, gpt: Gpt, s: uint64, e: uint64)
    requires dev.lbaSize > 0
    modifies opts`len
    ensures fresh(gpt) && fresh(gpt.entries) && gpt.dev == dev && gpt.Valid()
    ensures BOOTLOADER !in old(opts.len) ==> r.None?
    ensures r.Some? ==> r.value.table == gpt.Table()
    ensures r.Some? ==> BOOTLOADER in old(opts.len)
                        && r == Arrange(old(opts.Parts()), dev, NewTable(dev, diskGuid), opts.list, WipeBytes(old(opts.Parts())), false, guids, s, e)
    ensures r.Some? && Sweepable(NewTable(dev, diskGuid)) ==> FirstLongest(NewTable(dev, diskGuid), s, e)
    ensures r.None? && Sweepable(NewTable(dev, diskGuid)) ==>
              || BOOTLOADER !in old(opts.len)
              || SumSizes(old(opts.Parts()), opts.list).None?
              || (forall lba :: !Free(NewTable(dev, diskGuid), lba))
              || (FirstLongest(NewTable(dev, diskGuid), s, e)
                  && Arrange(old(opts.Parts()), dev, NewTable(dev, diskGuid), opts.list, WipeBytes(old(opts.Parts())), false, guids, s, e).None?)
  {
    hide Arrange, Sweepable, FirstLongest, Free, SumSizes, NewTable;
    gpt := new Gpt(dev);
    gpt.New(diskGuid);
    s, e := 0, 0;
    if BOOTLOADER !in opts.len {
      return None, gpt, s, e;
    }
    r, s, e := CreatePartitions(gpt, opts, U64(U64(opts.len[BOOTLOADER] * MIB) * 2), false, guids);
  }

  function WipeBytes(o: PartOpts): uint64 {
    if BOOTLOADER in o.len then U64(U64(o.len[BOOTLOADER] * MIB) * 2) else 0
  }

  /** Install beside Windows, on a table read from the disk; false where the program stops. The file
      system in the Windows partition has been resized beforehand. */
  method ExecuteDualBoot(gpt: Gpt, opts: Options, d: DualOpts, guids: nat -> Guid)
    returns (ok: bool, s: uint64, e: uint64, ghost cleared: Table)
    requires gpt.Valid() && gpt.dev.lbaSize > 0
    modifies gpt.entries, opts`len
    ensures gpt.Valid()
    ensures ok ==> Cleared(old(gpt.Table()), gpt.dev, d) == Some(cleared)
    ensures ok ==> DualBoot(old(opts.Parts()), gpt.dev, old(gpt.Table()), opts.list, d, guids, s, e) == Some(gpt.Table())
    ensures ok && Sweepable(cleared) ==> FirstLongest(cleared, s, e)
    ensures !ok && d.espIndex != 0 && Cleared(old(gpt.Table()), gpt.dev, d).Some?
            && Sweepable(Cleared(old(gpt.Table()), gpt.dev, d).value) ==>
              var t1 := Cleared(old(gpt.Table()), gpt.dev, d).value;
              || SumSizes(Claimed(old(opts.Parts()), d), opts.list).None?
              || (forall lba :: !Free(t1, lba))
              || (FirstLongest(t1, s, e)
                  && DualBoot(old(opts.Parts()), gpt.dev, old(gpt.Table()), opts.list, d, guids, s, e).None?)
  {
    hide Arrange, Sweepable, FirstLongest, Free, SumSizes, Shrunk, WithoutAndroid, SetName;
    ghost var t := gpt.Table();
    s, e, cleared := 0, 0, t;
    if d.espIndex == 0 {
      return false, s, e, cleared;
    }
    if d.winResize != 0 {
      ok := ResizeNtfs(gpt, d.winIndex, d.winResize);
      if !ok {
        return false, s, e, cleared;
      }
    }
    ClearedConsistent(t, gpt.dev, d);
    if d.androidSize != 0 {
      DeleteAndroid(gpt);
    }
    cleared := gpt.Table();
    opts.len := opts.len[BOOTLOADER := ToMib(d.espSize)];
    var c;
    c, s, e := CreatePartitions(gpt, opts, d.espSize, true, guids);
    if c.None? || d.espIndex > gpt.header.numEntries {
      return false, s, e, cleared;
    }
    EspNameFits();
    ok := gpt.EntrySetName(d.espIndex, ESP_NAME);
  }

  lemma ClearedConsistent(t: Table, dev: Device, d: DualOpts)
    requires t.Consistent() && dev.lbaSize > 0
    ensures d.winResize != 0 && 1 <= d.winIndex <= |t.entries| ==>
              t.(entries := Shrunk(t.entries, d.winIndex, d.winResize, dev.lbaSize)).Consistent()
    ensures Cleared(t, dev, d).Some? ==> Cleared(t, dev, d).value.Consistent()
  {
  }
}
