/** The installer's partition plan: how the listed partitions are laid end to end into a gap. */
module Planner {
  import opened Arithmetic
  import opened Bytes
  import opened GptFormat
  import opened GptImage
  import opened GptTable
  import opened Units
  import opened Wrappers

  const NAME_MAGIC: string := "android_"
  const BOOTLOADER: string := "bootloader"
  const BOOTLOADER2: string := "bootloader2"
  const MIN_DATA_MB: int := 350
  const ENTRY_NAME_MAX: nat := 27

  predicate StartsWith(s: string, p: string) {
    |p| <= |s| && s[..|p|] == p
  }

  /** The options of the partitions by name: length in MiB, type and flags. */
  datatype PartOpts = PartOpts(len: map<string, int>, ptype: map<string, string>, flags: map<string, seq<string>>)

  function TypeOf(s: string): Option<PartType> {
    if s == "esp" then Some(Esp)
    else if s == "boot" then Some(AndroidBoot)
    else if s == "recovery" then Some(AndroidRecovery)
    else if s == "tertiary" then Some(AndroidTertiary)
    else if s == "misc" then Some(AndroidMisc)
    else if s == "metadata" then Some(AndroidMetadata)
    else if s == "ext4" then Some(Linux)
    else if s == "vfat" then Some(MsData)
    else if s == "swap" then Some(LinuxSwap)
    else None
  }

  datatype FlagSet = FlagSet(system: bool, boot: bool, ro: bool, hidden: bool, noauto: bool) {
    function Mask(): uint64 {
      (if system then 0x1 else 0) + (if boot then 0x4 else 0) + (if ro then 0x1000_0000_0000_0000 else 0)
      + (if hidden then 0x4000_0000_0000_0000 else 0) + (if noauto then 0x8000_0000_0000_0000 else 0)
    }

    /** Switch the named flag on or off. */
    function With(name: string, on: bool): Option<FlagSet> {
      if name == "system" then Some(this.(system := on))
      else if name == "boot" then Some(this.(boot := on))
      else if name == "ro" then Some(this.(ro := on))
      else if name == "hidden" then Some(this.(hidden := on))
      else if name == "noauto" then Some(this.(noauto := on))
      else None
    }
  }

  const NO_FLAGS: FlagSet := FlagSet(false, false, false, false, false)

  /** A flag list read from left to right; a leading exclamation mark switches the flag off. */
  function FlagsOf(list: seq<string>): Option<FlagSet> {
    if list == [] then Some(NO_FLAGS)
    else
      var before, f := FlagsOf(list[..|list| - 1]), list[|list| - 1];
      if before.None? then None
      else if f != "" && f[0] == '!' then before.value.With(f[1..], false)
      else before.value.With(f, true)
  }

  /** Bytes that the listed partitions of fixed length take, the boot loaders aside. */
  function SumSizes(o: PartOpts, list: seq<string>): Option<uint64> {
    if list == [] then Some(0)
    else
      var before, name := SumSizes(o, list[..|list| - 1]), list[|list| - 1];
      if before.None? then None
      else if StartsWith(name, BOOTLOADER) then before
      else if name !in o.len then None
      else if o.len[name] > 0 then Some(U64(before.value + U64(o.len[name] * MIB)))
      else before
  }

  /** A partition put into place. */
  datatype Placed = Placed(name: string, index: nat, startMb: uint64, lenMb: uint64)

  /** What stays the same while partitions are created. */
  datatype Job = Job(o: PartOpts, dev: Device, guids: nat -> Guid, ptnMb: uint64, diskMb: uint64, skip: bool) {
    predicate Skips(name: string) {
      skip && name == BOOTLOADER
    }

    /** The length of a partition: what is left where the option is negative. */
    function LenMb(name: string): int
      requires name in o.len
    {
      if o.len[name] < 0 then U64(diskMb - ptnMb) else o.len[name]
    }
  }

  datatype Ctx = Ctx(table: Table, nextMb: uint64, placed: seq<Placed>)

  /** The entry for a partition of lenMb MiB at startMb. */
  function SpecFor(job: Job, name: CString, t: PartType, flags: FlagSet, startMb: uint64, lenMb: int, guid: Guid): Spec
    requires job.dev.lbaSize > 0
  {
    Spec(NAME_MAGIC + name, t, flags.Mask(), MibToLba(job.dev.lbaSize, startMb),
         U64(MibToLba(job.dev.lbaSize, U64(startMb + lenMb)) - 1), guid)
  }

  /** The limit on names is the longest that has room in an entry behind the prefix. */
  lemma LongestName(name: string)
    ensures |name| <= ENTRY_NAME_MAX <==> |NAME_MAGIC + name| <= NAME_MAX
  {
  }

  /** What the options say about a listed partition; None where the program stops. */
  datatype Wish = Wish(ptype: PartType, flags: FlagSet, len: int)

  function WishFor(job: Job, name: CString): Option<Wish> {
    var flags := FlagsOf(if name in job.o.flags then job.o.flags[name] else []);
    var t := TypeOf(if name in job.o.ptype then job.o.ptype[name] else "ext4");
    if flags.None? || |name| > ENTRY_NAME_MAX || name !in job.o.len || t.None? then None
    else Some(Wish(t.value, flags.value, job.LenMb(name)))
  }

  /** Create one listed partition; None where the program stops. */
  function MkPart(job: Job, name: CString, c: Ctx): Option<Ctx>
    requires job.dev.lbaSize > 0
  {
    if job.Skips(name) then Some(c) else
    var wish := WishFor(job, name);
    if wish.None? then None else
    var len := wish.value.len;
    var spec := SpecFor(job, name, wish.value.ptype, wish.value.flags, c.nextMb, len, job.guids(|c.placed|));
    var index := CreatedIndex(c.table.entries, spec);
    if index == 0 then None
    else Some(Ctx(Applied(c.table, Create(spec)), U64(c.nextMb + len), c.placed + [Placed(name, index, c.nextMb, U64(len))]))
  }

  lemma SkippedStays(job: Job, name: CString, c: Ctx)
    requires job.dev.lbaSize > 0 && job.Skips(name)
    ensures MkPart(job, name, c) == Some(c)
  {
  }

  function MkParts(job: Job, list: seq<CString>, c: Ctx): Option<Ctx>
    requires job.dev.lbaSize > 0
  {
    if list == [] then Some(c)
    else
      var before := MkParts(job, list[..|list| - 1], c);
      if before.None? then None else MkPart(job, list[|list| - 1], before.value)
  }

  /** Sectors from lo up to hi are free. */
  predicate FreeBetween(t: Table, lo: int, hi: int) {
    forall lba :: lo <= lba < hi ==> Free(t, lba)
  }

  /** The disk and the gap the partitions go into, in whole MiB. */
  datatype Gap = Gap(startMb: uint64, endMb: uint64)

  predicate GapReady(dev: Device, t: Table, g: Gap) {
    && dev.Valid() && MIB % dev.lbaSize == 0
    && 1 <= g.startMb <= g.endMb < 0x800_0000_0000
    && WellLaid(t)
    && FreeBetween(t, MibToLba(dev.lbaSize, g.startMb), MibToLba(dev.lbaSize, g.endMb))
  }

  /** Whole MiB are whole sectors. */
  lemma MibExact(lbaSize: uint32, mib: nat)
    requires lbaSize > 0 && MIB % lbaSize == 0 && mib < 0x1000_0000_0000
    ensures MibToLba(lbaSize, mib) == mib * (MIB / lbaSize)
    ensures MibToLba(lbaSize, mib) * lbaSize == mib * MIB
    ensures MIB / lbaSize >= 1
  {
    var k := MIB / lbaSize;
    assert MIB == lbaSize * k;
    assert mib * MIB == lbaSize * (mib * k);
    DivModUnique(mib * MIB, lbaSize, mib * k, 0);
  }

  lemma MibMonotone(lbaSize: uint32, a: nat, b: nat)
    requires lbaSize > 0 && MIB % lbaSize == 0 && a < b < 0x1000_0000_0000
    ensures MibToLba(lbaSize, a) < MibToLba(lbaSize, b)
  {
    MibExact(lbaSize, a);
    MibExact(lbaSize, b);
    MulLe(a + 1, b, MIB / lbaSize);
  }

  /** An entry as it was put into place. */
  predicate InPlace(dev: Device, t: Table, p: Placed)
    requires dev.lbaSize > 0
  {
    && 1 <= p.index <= |t.entries|
    && p.startMb + p.lenMb < 0x800_0000_0000
    && var e := t.entries[p.index - 1];
    && Live(e)
    && e.firstLba == MibToLba(dev.lbaSize, p.startMb)
    && e.lastLba == MibToLba(dev.lbaSize, p.startMb + p.lenMb) - 1
    && IsCString(p.name) && GetName(e.name) == AsciiOnly(NAME_MAGIC + p.name)
  }

  /** The partitions follow each other without gaps from a to b. */
  predicate Chain(placed: seq<Placed>, a: int, b: int) {
    if placed == [] then a == b
    else
      var p := placed[|placed| - 1];
      p.lenMb >= 1 && p.startMb + p.lenMb == b && Chain(placed[..|placed| - 1], a, p.startMb)
  }

  function Indexes(placed: seq<Placed>): set<nat> {
    if placed == [] then {} else Indexes(placed[..|placed| - 1]) + {placed[|placed| - 1].index}
  }

  /** Only slots that were free have been filled. */
  predicate Untouched(t0: Table, t: Table, placed: seq<Placed>) {
    && |t.entries| == |t0.entries| && t.header == t0.header
    && (forall i :: 0 <= i < |t0.entries| && i + 1 !in Indexes(placed) ==> t.entries[i] == t0.entries[i])
    && (forall i :: i in Indexes(placed) ==> 1 <= i <= |t0.entries| && !Live(t0.entries[i - 1]))
  }

  /** What holds of the table and the list while partitions are created from t0 in the gap. */
  predicate Laid(job: Job, t0: Table, g: Gap, c: Ctx)
    requires job.dev.lbaSize > 0
  {
    && WellLaid(c.table)
    && g.startMb <= c.nextMb <= g.endMb
    && FreeBetween(c.table, MibToLba(job.dev.lbaSize, c.nextMb), MibToLba(job.dev.lbaSize, g.endMb))
    && Chain(c.placed, g.startMb, c.nextMb)
    && Untouched(t0, c.table, c.placed)
    && (forall k :: 0 <= k < |c.placed| ==> InPlace(job.dev, c.table, c.placed[k]))
    && (forall j, k :: 0 <= j < k < |c.placed| ==> c.placed[j].index != c.placed[k].index)
  }

  lemma LaidAtStart(job: Job, t: Table, g: Gap)
    requires GapReady(job.dev, t, g)
    ensures Laid(job, t, g, Ctx(t, g.startMb, []))
  {
  }

  /** Creating an entry on part of a free stretch leaves the rest of it free. */
  lemma RestStaysFree(t: Table, s: Spec, hi: int)
    requires WellLaid(t) && |s.name| <= NAME_MAX && 0 < s.first <= s.last < hi && FreeBetween(t, s.first, hi)
    requires CreatedIndex(t.entries, s) != 0
    ensures Allowed(t, Create(s))
    ensures FreeBetween(Applied(t, Create(s)), s.last + 1, hi)
  {
    var t' := Applied(t, Create(s));
    CreateIsLocal(t.entries, s);
    forall lba | s.last + 1 <= lba < hi ensures Free(t', lba) {
      assert Free(t, lba) && !Covered(t.entries, lba);
      forall i | 0 <= i < |t'.entries| && Live(t'.entries[i])
        ensures !(t'.entries[i].firstLba <= lba <= t'.entries[i].lastLba)
      {
        assert i != CreatedIndex(t.entries, s) - 1 ==> t'.entries[i] == t.entries[i];
      }
    }
  }

  /** One partition more. */
  lemma MkPartLays(job: Job, t0: Table, g: Gap, name: CString, c: Ctx)
    requires GapReady(job.dev, t0, g) && Laid(job, t0, g, c)
    requires MkPart(job, name, c).Some? && !job.Skips(name)
    requires 1 <= job.LenMb(name) && c.nextMb + job.LenMb(name) <= g.endMb
    ensures var c' := MkPart(job, name, c).value;
      Laid(job, t0, g, c') && c'.nextMb == c.nextMb + job.LenMb(name)
  {
    hide Chain, WellLaid, FreeBetween, Untouched, InPlace, Created, CreatedIndex, TypeOf, FlagsOf;
    var c' := MkPart(job, name, c).value;
    var wish, len := WishFor(job, name).value, job.LenMb(name);
    var s := SpecFor(job, name, wish.ptype, wish.flags, c.nextMb, len, job.guids(|c.placed|));
    SpecInside(job, g, c, s, len);
    RestStaysFree(c.table, s, MibToLba(job.dev.lbaSize, g.endMb));
    CreateKeepsLayout(c.table, s);
    assert OneMorePlaced(job, c, s, c');
    StillUntouched(job, t0, c, s, c');
    forall k | 0 <= k < |c.placed|
      ensures InPlace(job.dev, c'.table, c'.placed[k]) && c'.placed[k].index != c'.placed[|c.placed|].index
    {
      StillInPlace(job, c, s, c', k);
    }
    NewInPlace(job, c, s, c', len);
    ChainExtends(c.placed, g.startMb, c.nextMb, c'.placed[|c.placed|]);
  }

  lemma ChainExtends(placed: seq<Placed>, a: int, b: int, p: Placed)
    requires Chain(placed, a, b) && p.startMb == b && p.lenMb >= 1
    ensures Chain(placed + [p], a, b + p.lenMb)
  {
    assert (placed + [p])[..|placed|] == placed;
  }

  lemma SpecInside(job: Job, g: Gap, c: Ctx, s: Spec, len: int)
    requires job.dev.Valid() && MIB % job.dev.lbaSize == 0 && 1 <= g.startMb <= c.nextMb && g.endMb < 0x800_0000_0000
    requires 1 <= len && c.nextMb + len <= g.endMb
    requires s.first == MibToLba(job.dev.lbaSize, c.nextMb)
    requires s.last == U64(MibToLba(job.dev.lbaSize, U64(c.nextMb + len)) - 1)
    ensures 0 < s.first <= s.last < MibToLba(job.dev.lbaSize, g.endMb)
    ensures s.last + 1 == MibToLba(job.dev.lbaSize, c.nextMb + len)
  {
    MibMonotone(job.dev.lbaSize, 0, c.nextMb);
    MibMonotone(job.dev.lbaSize, c.nextMb, c.nextMb + len);
    if c.nextMb + len < g.endMb {
      MibMonotone(job.dev.lbaSize, c.nextMb + len, g.endMb);
    }
  }

  /** c' is c with one entry more, created by s. */
  predicate OneMorePlaced(job: Job, c: Ctx, s: Spec, c': Ctx) {
    && c'.table == Applied(c.table, Create(s)) && CreatedIndex(c.table.entries, s) != 0
    && |c'.placed| == |c.placed| + 1 && c'.placed[..|c.placed|] == c.placed
    && c'.placed[|c.placed|].index == CreatedIndex(c.table.entries, s)
  }

  lemma StillUntouched(job: Job, t0: Table, c: Ctx, s: Spec, c': Ctx)
    requires Untouched(t0, c.table, c.placed) && OneMorePlaced(job, c, s, c')
    ensures Untouched(t0, c'.table, c'.placed)
  {
    hide Created, CreatedIndex;
    CreateIsLocal(c.table.entries, s);
    var i := c'.placed[|c.placed|].index;
    assert Indexes(c'.placed) == Indexes(c.placed) + {i};
    if i !in Indexes(c.placed) {
      assert c.table.entries[i - 1] == t0.entries[i - 1];
    }
  }

  lemma StillInPlace(job: Job, c: Ctx, s: Spec, c': Ctx, k: nat)
    requires job.dev.lbaSize > 0 && OneMorePlaced(job, c, s, c')
    requires k < |c.placed| && InPlace(job.dev, c.table, c.placed[k])
    ensures InPlace(job.dev, c'.table, c'.placed[k])
    ensures c'.placed[k].index != c'.placed[|c.placed|].index
  {
    hide Created, CreatedIndex, MibToLba, GetName, AsciiOnly;
    CreateIsLocal(c.table.entries, s);
    assert c'.placed[k] == c.placed[k];
  }

  lemma NewInPlace(job: Job, c: Ctx, s: Spec, c': Ctx, len: int)
    requires job.dev.lbaSize > 0 && OneMorePlaced(job, c, s, c')
    requires var p := c'.placed[|c.placed|];
      p.startMb == c.nextMb && p.lenMb == len && IsCString(p.name) && s.name == NAME_MAGIC + p.name
    requires c.nextMb + len < 0x800_0000_0000 && 0 < s.first
    requires s.first == MibToLba(job.dev.lbaSize, c.nextMb) && s.last == MibToLba(job.dev.lbaSize, c.nextMb + len) - 1
    ensures InPlace(job.dev, c'.table, c'.placed[|c.placed|])
  {
    hide Created, CreatedIndex, MibToLba, GetName, AsciiOnly;
    CreateIsLocal(c.table.entries, s);
  }
}
