/** A reader of the table: the four slots, and the chain of extended boot records behind the extended
    partition. It recovers the configured partitions from the committed bytes. */
module MbrWalk {
  import opened Arithmetic
  import opened Bytes
  import opened MbrConfig
  import opened MbrLayout
  import opened MbrCommit
  import opened Wrappers

  /** An entry as a reader takes it apart; chs are the two cylinder-head-sector addresses. */
  datatype Entry = Entry(status: byte, chs: seq<byte>, ptype: byte, start: nat, len: nat)

  function Decode(s: seq<byte>): Entry
    requires |s| == 16
  {
    Entry(s[0], s[1..4] + s[5..8], s[4], U32At(s, 8), U32At(s, 12))
  }

  /** The addresses of a partition: not zero, which some firmware cannot take, and no place either. */
  function Addresses(len: int): (s: seq<byte>)
    ensures |s| == 6
  {
    if len == 0 then Zeros(6) else [0xff, 0xff, 0xff, 0xff, 0xff, 0xff]
  }

  /** What the firmware starts: 0x80 marks it. */
  function ActiveMark(active: bool): byte {
    if active then 0x80 else 0
  }

  function SlotAt(disk: seq<byte>, slot: nat): Entry
    requires |disk| >= RECORD_BYTES && slot < SLOTS
  {
    Decode(Slice(disk, TABLE_OFFSET + 16 * slot, 16))
  }

  predicate HasSignature(s: seq<byte>)
    requires |s| == RECORD_BYTES
  {
    s[510] == 0x55 && s[511] == 0xaa
  }

  /** The logical partition of a boot record, relative to that record, and the link to the next
      record, relative to the extended partition. */
  function LogicalOf(record: seq<byte>): Entry
    requires |record| == RECORD_BYTES
  {
    Decode(Slice(record, TABLE_OFFSET, 16))
  }

  function LinkOf(record: seq<byte>): Entry
    requires |record| == RECORD_BYTES
  {
    Decode(Slice(record, TABLE_OFFSET + 16, 16))
  }

  /** The boot record at a sector, if it is on the disk and signed. */
  function RecordAt(disk: seq<byte>, sect: uint32, at: nat): (r: Option<seq<byte>>)
    ensures r.Some? ==> |r.value| == RECORD_BYTES
  {
    MulLe(0, at, sect);
    var off: nat := at * sect;
    if off + RECORD_BYTES > |disk| then None
    else
      var record := Slice(disk, off, RECORD_BYTES);
      if HasSignature(record) then Some(record) else None
  }

  /** The logical partitions from the boot record at sector `at` on, with absolute starts; none where
      a record is missing, or the chain has more than `fuel` records. */
  function Walk(disk: seq<byte>, sect: uint32, ext: nat, at: nat, fuel: nat): Option<seq<Entry>>
    decreases fuel
  {
    var record := RecordAt(disk, sect, at);
    if fuel == 0 || record.None? then None
    else
      var logical, link := LogicalOf(record.value), LinkOf(record.value);
      var here := logical.(start := at + logical.start);
      if link.len == 0 then Some([here])
      else
        var rest := Walk(disk, sect, ext, ext + link.start, fuel - 1);
        if rest.None? then None else Some([here] + rest.value)
  }

  lemma EntryDecodes(status: byte, ptype: byte, start: uint32, len: uint32)
    ensures Decode(PEntry(status, ptype, start, len)) == Entry(status, Addresses(len), ptype, start, len)
  {
    hide LE, U32At, Read32;
    var e := PEntry(status, ptype, start, len);
    assert Slice(e, 8, 4) == LE(start, 4) && Slice(e, 12, 4) == LE(len, 4);
    Read32At(e, 8);
    Read32At(e, 12);
    Read32OfLE(start);
    Read32OfLE(len);
    assert e[1..4] + e[5..8] == Addresses(len);
  }

  const NO_ENTRY: Entry := Entry(0, Zeros(6), 0, 0, 0)

  lemma DecodeNothing()
    ensures Decode(Zeros(16)) == NO_ENTRY
  {
    assert Zeros(16)[1..4] + Zeros(16)[5..8] == Zeros(6);
  }

  lemma RecordParts(logical: seq<byte>, link: seq<byte>)
    requires |logical| == |link| == 16
    ensures var r := Record(logical, link);
            HasSignature(r) && LogicalOf(r) == Decode(logical) && LinkOf(r) == Decode(link)
  {
    var r := Record(logical, link);
    assert Slice(r, TABLE_OFFSET, 16) == logical;
    assert Slice(r, TABLE_OFFSET + 16, 16) == link;
  }

  /** Partition i as a reader should see it. */
  function Expected(conf: Conf, parts: seq<Part>, i: nat): Entry
    requires Unwrapped(conf, parts) && Config(conf, parts).Done? && i < |parts|
  {
    CursFit(conf, parts, i);
    Entry(ActiveMark(parts[i].active && !Chained(parts, i)), Addresses(Len(conf, parts, i)), parts[i].ptype,
          Start(conf, parts, i), Len(conf, parts, i))
  }

  /** The extended partition from sector `at` on. */
  function ExtendedEntry(at: nat, len: nat): Entry {
    Entry(0, Addresses(len), TYPE_EXTENDED, at, len)
  }

  function ExpectedFrom(conf: Conf, parts: seq<Part>, i: nat): (es: seq<Entry>)
    requires Unwrapped(conf, parts) && Config(conf, parts).Done? && i <= |parts|
    ensures |es| == |parts| - i && forall k :: 0 <= k < |es| ==> es[k] == Expected(conf, parts, i + k)
    decreases |parts| - i
  {
    if i == |parts| then [] else [Expected(conf, parts, i)] + ExpectedFrom(conf, parts, i + 1)
  }

  /** A boot record for partition i: the partition right behind it, and a link that spans exactly the
      next record and the next partition, or no link at the end. */
  predicate Says(conf: Conf, parts: seq<Part>, i: nat, record: Option<seq<byte>>)
    requires conf.sect > 0 && i < |parts| && Chained(parts, i)
  {
    && record.Some? && |record.value| == RECORD_BYTES
    && (var logical, link := LogicalOf(record.value), LinkOf(record.value);
        && logical == Entry(0, Addresses(Len(conf, parts, i)), parts[i].ptype, 1, logical.len)
        && logical.len == Len(conf, parts, i)
        && LinkFor(conf, parts, i, link))
  }

  /** The link behind partition i: to the next record, over that record and its partition. */
  predicate LinkFor(conf: Conf, parts: seq<Part>, i: nat, link: Entry)
    requires conf.sect > 0 && i < |parts| && Chained(parts, i)
  {
    if i + 1 == |parts| then link == NO_ENTRY
    else
      && link == ExtendedEntry(link.start, link.len)
      && link.start == Cur(conf, parts, i + 1) - Cur(conf, parts, SLOTS - 1)
      && link.len == 1 + Len(conf, parts, i + 1)
  }

  /** Every partition of the chain has its boot record on the disk. */
  lemma RecordSays(conf: Conf, parts: seq<Part>, disk: seq<byte>, i: nat)
    requires Ready(conf, parts, disk) && i < |parts| && Chained(parts, i)
    ensures 0 <= Cur(conf, parts, i)
    ensures Says(conf, parts, i, RecordAt(Final(conf, parts, disk), conf.sect, Cur(conf, parts, i)))
  {
    hide Cur, Sectors, PEntry, Record, Config, Unwrapped, LinkOf, LogicalOf, HasSignature, LE, Decode, Zeros, Len, Final;
    RecordCommitted(conf, parts, disk, i);
    WantedPlace(conf, parts, i, |disk|);
    CursFit(conf, parts, i);
    var len := U32(Len(conf, parts, i));
    EntryDecodes(NORMAL, parts[i].ptype, 1, len);
    RecordParts(PEntry(NORMAL, parts[i].ptype, 1, len), WantedLink(conf, parts, i));
    LinkSays(conf, parts, i);
  }

  lemma LinkSays(conf: Conf, parts: seq<Part>, i: nat)
    requires Unwrapped(conf, parts) && Config(conf, parts).Done? && i < |parts| && Chained(parts, i)
    ensures LinkFor(conf, parts, i, Decode(WantedLink(conf, parts, i)))
  {
    hide Cur, Sectors, PEntry, Config, LE, Decode, Zeros, Len;
    if i + 1 == |parts| {
      DecodeNothing();
    } else {
      CursFit(conf, parts, SLOTS - 1);
      CursFit(conf, parts, i + 1);
      RecordOrder(conf, parts, SLOTS - 1, i + 1);
      EntryDecodes(NORMAL, TYPE_EXTENDED, U32(Cur(conf, parts, i + 1) - Cur(conf, parts, SLOTS - 1)),
                  U32(1 + Len(conf, parts, i + 1)));
    }
  }

  lemma WalkStops(disk: seq<byte>, sect: uint32, ext: nat, at: nat, fuel: nat)
    requires fuel > 0 && RecordAt(disk, sect, at).Some?
    requires LogicalOf(RecordAt(disk, sect, at).value).start == 1 && LinkOf(RecordAt(disk, sect, at).value).len == 0
    ensures var e := LogicalOf(RecordAt(disk, sect, at).value);
            Walk(disk, sect, ext, at, fuel) == Some([e.(start := at + 1)])
  {
  }

  lemma WalkSteps(disk: seq<byte>, sect: uint32, ext: nat, at: nat, fuel: nat, rest: seq<Entry>)
    requires fuel > 0 && RecordAt(disk, sect, at).Some?
    requires LogicalOf(RecordAt(disk, sect, at).value).start == 1 && LinkOf(RecordAt(disk, sect, at).value).len > 0
    requires Walk(disk, sect, ext, ext + LinkOf(RecordAt(disk, sect, at).value).start, fuel - 1) == Some(rest)
    ensures var e := LogicalOf(RecordAt(disk, sect, at).value);
            Walk(disk, sect, ext, at, fuel) == Some([e.(start := at + 1)] + rest)
  {
    hide RecordAt, LogicalOf, LinkOf;
  }

  /** From boot record i the walk sees partitions i and up, whatever fuel is left over. */
  lemma {:induction false} WalkFrom(conf: Conf, parts: seq<Part>, disk: seq<byte>, i: nat, fuel: nat)
    requires Ready(conf, parts, disk) && i < |parts| && Chained(parts, i) && fuel >= |parts| - i
    ensures 0 <= Cur(conf, parts, i) && 0 <= Cur(conf, parts, SLOTS - 1)
    ensures Walk(Final(conf, parts, disk), conf.sect, Cur(conf, parts, SLOTS - 1), Cur(conf, parts, i), fuel)
            == Some(ExpectedFrom(conf, parts, i))
    decreases |parts| - i
  {
    hide Cur, Sectors, Config, Unwrapped, LinkOf, LogicalOf, RecordAt, Len, Final, Walk;
    RecordSays(conf, parts, disk, i);
    CursFit(conf, parts, i);
    CursFit(conf, parts, SLOTS - 1);
    var ext, at, final := Cur(conf, parts, SLOTS - 1), Cur(conf, parts, i), Final(conf, parts, disk);
    if i + 1 < |parts| {
      CursFit(conf, parts, i + 1);
      WalkFrom(conf, parts, disk, i + 1, fuel - 1);
      WalkSteps(final, conf.sect, ext, at, fuel, ExpectedFrom(conf, parts, i + 1));
    } else {
      WalkStops(final, conf.sect, ext, at, fuel);
      assert ExpectedFrom(conf, parts, i) == [Expected(conf, parts, i)];
    }
  }

  /** What the slots of the committed table say. */
  lemma SlotsSay(conf: Conf, parts: seq<Part>, disk: seq<byte>, slot: nat)
    requires Ready(conf, parts, disk) && slot < SLOTS
    ensures var e := SlotAt(Final(conf, parts, disk), slot);
            if slot >= |parts| then e == NO_ENTRY
            else if Chained(parts, slot) then
              e == ExtendedEntry(e.start, e.len) && e.start == Cur(conf, parts, slot) && e.start + e.len == conf.num
            else e == Expected(conf, parts, slot)
  {
    hide Cur, Sectors, PEntry, Config, LE, Decode, Zeros, Len, Final, Unwrapped;
    TableCommitted(conf, parts, disk, slot);
    if slot >= |parts| {
      DecodeNothing();
    } else {
      CursFit(conf, parts, slot);
      var at, len := U32(Cur(conf, parts, slot)), U32(Len(conf, parts, slot));
      EntryDecodes(NORMAL, TYPE_EXTENDED, at, Sub32(conf.num, at));
      EntryDecodes(Status(parts[slot]), parts[slot].ptype, at, len);
    }
  }

  /** What the firmware looks for: byte 446 + 16 * slot is 0x80 exactly for an active partition in that
      slot, and otherwise 0; in the boot records nothing is active. */
  lemma ActiveIsMarked(conf: Conf, parts: seq<Part>, disk: seq<byte>, slot: nat, i: nat)
    requires Ready(conf, parts, disk) && slot < SLOTS
    ensures Final(conf, parts, disk)[446 + 16 * slot]
            == if slot < |parts| && parts[slot].active && !Chained(parts, slot) then 0x80 else 0
    ensures i < |parts| && Chained(parts, i) ==>
              var final, at := Final(conf, parts, disk), Cur(conf, parts, i) * conf.sect;
              0 <= at && at + 512 <= |final| && final[at + 446] == 0 && final[at + 462] == 0
  {
    assert conf.sect > 0;
    hide Cur, Len, Final, Ready, SlotAt, RecordAt, Addresses;
    SlotsSay(conf, parts, disk, slot);
    StatusByte(Final(conf, parts, disk), slot);
    if i < |parts| && Chained(parts, i) {
      RecordSays(conf, parts, disk, i);
      StatusBytes(Final(conf, parts, disk), conf.sect, Cur(conf, parts, i));
    }
  }

  lemma StatusByte(disk: seq<byte>, slot: nat)
    requires |disk| >= RECORD_BYTES && slot < SLOTS
    ensures SlotAt(disk, slot).status == disk[446 + 16 * slot]
  {
  }

  lemma StatusBytes(disk: seq<byte>, sect: uint32, at: nat)
    requires RecordAt(disk, sect, at).Some?
    ensures 0 <= at * sect && at * sect + 512 <= |disk|
    ensures var r := RecordAt(disk, sect, at).value;
      LogicalOf(r).status == disk[at * sect + 446] && LinkOf(r).status == disk[at * sect + 462]
  {
    MulLe(0, at, sect);
    var off: nat, r := at * sect, RecordAt(disk, sect, at).value;
    assert r == Slice(disk, off, RECORD_BYTES);
    assert Slice(r, TABLE_OFFSET, 16)[0] == r[446] && Slice(r, TABLE_OFFSET + 16, 16)[0] == r[462];
  }

  /** The chain on the disk is the configuration: from the extended entry of the table the walk ends
      after exactly the partitions from the fourth on, in order, each where it was recorded to start. */
  lemma ChainIsConfiguration(conf: Conf, parts: seq<Part>, disk: seq<byte>, fuel: nat)
    requires Ready(conf, parts, disk) && |parts| > SLOTS && fuel >= |parts| - (SLOTS - 1)
    ensures var final, rec := Final(conf, parts, disk), Config(conf, parts).state.parts;
            var ext := SlotAt(final, SLOTS - 1);
            var seen := Walk(final, conf.sect, ext.start, ext.start, fuel);
            && ext.ptype == TYPE_EXTENDED && seen.Some? && |seen.value| == |parts| - (SLOTS - 1) && |rec| == |parts|
            && forall k :: 0 <= k < |seen.value| ==>
                 var i, e := SLOTS - 1 + k, seen.value[k];
                 && e == Entry(0, Addresses(e.len), parts[i].ptype, rec[i].startLba, e.len) && e.len == Len(conf, parts, i)
  {
    hide Cur, Len, Final, Unwrapped, Walk, SlotAt, Turns;
    SlotsSay(conf, parts, disk, SLOTS - 1);
    WalkFrom(conf, parts, disk, SLOTS - 1, fuel);
    forall k | 0 <= k < |parts| ensures Config(conf, parts).state.parts[k].startLba == Start(conf, parts, k) {
      LayoutInOrder(conf, parts, k);
    }
  }

  /** The first slot with an extended partition; SLOTS where there is none. */
  function FirstExtended(disk: seq<byte>, slot: nat): nat
    requires |disk| >= RECORD_BYTES && slot <= SLOTS
    decreases SLOTS - slot
  {
    if slot == SLOTS || SlotAt(disk, slot).ptype == TYPE_EXTENDED then slot else FirstExtended(disk, slot + 1)
  }

  /** The partition behind a device number: the slots are 1 to 4, the chain counts on from 5. */
  function Device(disk: seq<byte>, sect: uint32, num: nat, fuel: nat): Option<Entry>
    requires |disk| >= RECORD_BYTES
  {
    if num == 0 then None
    else if num <= SLOTS then Some(SlotAt(disk, num - 1))
    else
      var slot := FirstExtended(disk, 0);
      if slot == SLOTS then None
      else
        var ext := SlotAt(disk, slot).start;
        var chain := Walk(disk, sect, ext, ext, fuel);
        if chain.None? || num - 1 - SLOTS >= |chain.value| then None else Some(chain.value[num - 1 - SLOTS])
  }

  lemma ExtendedIsFourth(conf: Conf, parts: seq<Part>, disk: seq<byte>)
    requires Ready(conf, parts, disk) && |parts| > SLOTS
    requires forall i :: 0 <= i < |parts| ==> parts[i].ptype != TYPE_EXTENDED
    ensures FirstExtended(Final(conf, parts, disk), 0) == SLOTS - 1
  {
    hide Ready, Final, SlotAt, FirstExtended, Cur, Len;
    SlotsSay(conf, parts, disk, 0);
    SlotsSay(conf, parts, disk, 1);
    SlotsSay(conf, parts, disk, 2);
    SlotsSay(conf, parts, disk, 3);
    FirstIsFourth(Final(conf, parts, disk));
  }

  lemma FirstIsFourth(disk: seq<byte>)
    requires |disk| >= RECORD_BYTES && forall s :: 0 <= s < 3 ==> SlotAt(disk, s).ptype != TYPE_EXTENDED
    requires SlotAt(disk, 3).ptype == TYPE_EXTENDED
    ensures FirstExtended(disk, 0) == 3
  {
    hide SlotAt;
    assert FirstExtended(disk, 2) == 3;
    assert FirstExtended(disk, 1) == 3;
  }

  /** The number given for a name is that of the first partition with it: one more than its index where
      it has a slot of the table, five and its place on the chain where it is on the chain. */
  lemma NumberIsPlace(parts: seq<Part>, name: string)
    ensures var i, num := First(parts, name), DeviceNumber(parts, name);
            if i == |parts| then num == 0 && forall j :: 0 <= j < |parts| ==> parts[j].name != name
            else parts[i].name == name
                 && (num == i + 1 <==> !Chained(parts, i))
                 && (num == 5 + (i - (SLOTS - 1)) <==> Chained(parts, i))
  {
    FirstHasName(parts, name);
  }

  /** And on the committed disk that number is the partition, where it was recorded to start. */
  lemma NumberFindsPartition(conf: Conf, parts: seq<Part>, disk: seq<byte>, name: string, fuel: nat)
    requires Ready(conf, parts, disk) && fuel >= |parts|
    requires forall i :: 0 <= i < |parts| ==> parts[i].ptype != TYPE_EXTENDED
    requires First(parts, name) < |parts|
    ensures var i, rec := First(parts, name), Config(conf, parts).state.parts;
            && |rec| == |parts| && Len(conf, parts, i) >= 0
            && Device(Final(conf, parts, disk), conf.sect, DeviceNumber(parts, name), fuel)
               == Some(Entry(ActiveMark(parts[i].active && !Chained(parts, i)), Addresses(Len(conf, parts, i)), parts[i].ptype,
                             rec[i].startLba, Len(conf, parts, i)))
  {
    hide Cur, Len, Final, Unwrapped, Walk, SlotAt, Turns, FirstExtended, First;
    var i := First(parts, name);
    LayoutInOrder(conf, parts, i);
    CursFit(conf, parts, i);
    if Chained(parts, i) {
      ExtendedIsFourth(conf, parts, disk);
      ChainIsConfiguration(conf, parts, disk, fuel);
    } else {
      SlotsSay(conf, parts, disk, i);
    }
  }
}
