/** Building a PC partition table: primary entries, and a chain of extended boot records for the
    partitions from the fourth on. The numbers are the program's, 32 bits wide. */
module MbrConfig {
  import opened Arithmetic
  import opened Bytes

  const SLOTS: nat := 4
  const TABLE_OFFSET: nat := 446
  const RECORD_BYTES: nat := 512
  const TYPE_EXTENDED: byte := 5
  const ACTIVE: byte := 0x80
  const NORMAL: byte := 0
  /** The length that means "the rest of the disk". */
  const FILL: uint32 := 0xffff_ffff

  datatype Part = Part(name: string, active: bool, ptype: byte, lenKb: uint32, startLba: uint32)
  datatype Conf = Conf(sect: uint32, skip: uint32, num: uint32)
  datatype Write = Write(offset: nat, data: seq<byte>)

  /** A partition entry; the cylinder fields are all ones, or all zeros where there is no partition. */
  function PEntry(status: byte, ptype: byte, start: uint32, len: uint32): (s: seq<byte>)
    ensures |s| == 16
  {
    var chs := if len > 0 then 0xff else 0;
    [status, chs, chs, chs, ptype, chs, chs, chs] + (LE(start, 4) + LE(len, 4))
  }

  /** An extended boot record: the logical partition and the link to the next record. */
  function Record(logical: seq<byte>, link: seq<byte>): (s: seq<byte>)
    requires |logical| == |link| == 16
    ensures |s| == RECORD_BYTES
  {
    Zeros(TABLE_OFFSET) + (logical + (link + (Zeros(32) + [0x55, 0xaa])))
  }

  function BlankTable(): (s: seq<byte>)
    ensures |s| == 66
  {
    Zeros(64) + [0x55, 0xaa]
  }

  /** KiB in sectors, rounded up. Sector sizes are powers of two, so that masking rounds. */
  function Sectors(lenKb: uint32, sect: uint32): (n: nat)
    requires sect > 0
  {
    (lenKb * 1024 + (sect - 1)) / sect
  }

  /** The same, cut to 32 bits. */
  function KbToLba(lenKb: uint32, sect: uint32): uint32
    requires sect > 0
  {
    U32(Sectors(lenKb, sect))
  }

  /** The byte offset of a sector. */
  function Offset(lba: uint32, sect: uint32): (n: nat) {
    MulLe(0, lba, sect);
    lba * sect
  }

  /** Sectors in whole KiB, rounded down, cut to 32 bits. */
  function LbaToKb(len: uint32, sect: uint32): uint32 {
    U32(Offset(len, sect) / 1024)
  }

  /** What the loop carries along: the next sector, the start of the extended partition, the writes
      so far, newest first, and the partitions with what has been recorded in them. */
  datatype State = State(cur: uint32, ext: uint32, extended: bool, writes: seq<Write>, parts: seq<Part>)

  function SlotWrite(slot: nat, entry: seq<byte>): Write {
    Write(TABLE_OFFSET + 16 * slot, entry)
  }

  /** No room for the partition at hand, or for its boot record. */
  predicate NoSpace(conf: Conf, p: Part, cur: uint32, extended: bool)
    requires conf.sect > 0
  {
    var e := if extended then 1 else 0;
    conf.num != 0 &&
    (Add32(cur, e) >= conf.num ||
     (p.lenKb != FILL && Add32(Add32(cur, Mul32(p.lenKb / conf.sect, 1024)), e) > conf.num))
  }

  /** The sectors of a partition whose first one is `at`. */
  function LenFor(conf: Conf, p: Part, at: uint32): uint32
    requires conf.sect > 0
  {
    if p.lenKb != FILL then KbToLba(p.lenKb, conf.sect) else Sub32(conf.num, at)
  }

  lemma BlankLength(conf: Conf, p: Part, at: uint32)
    requires conf.sect > 0 && p.lenKb == 0
    ensures LenFor(conf, p, at) == 0
  {
    DivModUnique(conf.sect - 1, conf.sect, 0, conf.sect - 1);
  }

  function Status(p: Part): byte {
    if p.active then ACTIVE else NORMAL
  }

  /** One partition placed: what is written, what is recorded, and the sector after it. */
  datatype Placement = Placement(write: Write, part: Part, next: uint32)

  /** A primary partition from sector `at` on. */
  function Primary(conf: Conf, p: Part, slot: nat, at: uint32): Placement
    requires conf.sect > 0
  {
    var len := LenFor(conf, p, at);
    Placement(SlotWrite(slot, PEntry(Status(p), p.ptype, at, len)), p.(startLba := at), Add32(at, len))
  }

  /** The extended partition: the rest of the disk. */
  function Extended(conf: Conf, slot: nat, at: uint32): Write {
    SlotWrite(slot, PEntry(NORMAL, TYPE_EXTENDED, at, Sub32(conf.num, at)))
  }

  datatype Follow = Last | Next(part: Part)

  function FollowOf(parts: seq<Part>, cnt: nat): Follow {
    if cnt + 1 < |parts| then Next(parts[cnt + 1]) else Last
  }

  /** The link from a boot record to the next one, at sector `at`. */
  function Link(conf: Conf, follow: Follow, at: uint32, ext: uint32): (s: seq<byte>)
    requires conf.sect > 0
    ensures |s| == 16
  {
    match follow
    case Last => Zeros(16)
    case Next(p) =>
      var len := if p.lenKb != FILL then Add32(1, KbToLba(p.lenKb, conf.sect)) else Sub32(conf.num, at);
      PEntry(NORMAL, TYPE_EXTENDED, Sub32(at, ext), len)
  }

  /** A boot record at sector `at`, and the logical partition behind it. */
  function Logical(conf: Conf, p: Part, follow: Follow, at: uint32, ext: uint32): Placement
    requires conf.sect > 0
  {
    var start := Add32(at, 1);
    var len := LenFor(conf, p, start);
    var next := Add32(start, len);
    var kb := if p.lenKb != FILL then p.lenKb else LbaToKb(len, conf.sect);
    Placement(Write(Offset(at, conf.sect), Record(PEntry(NORMAL, p.ptype, 1, len), Link(conf, follow, next, ext))),
           p.(startLba := start, lenKb := kb), next)
  }

  function Put(st: State, cnt: nat, pl: Placement): State
    requires cnt < |st.parts|
  {
    st.(cur := pl.next, writes := [pl.write] + st.writes, parts := st.parts[cnt := pl.part])
  }

  /** The fourth of more than four partitions opens the extended partition. */
  function OpenExtended(conf: Conf, st: State, cnt: nat): State {
    if cnt == SLOTS - 1 && cnt + 1 < |st.parts| then
      st.(extended := true, ext := st.cur, writes := [Extended(conf, cnt, st.cur)] + st.writes)
    else st
  }

  datatype Outcome = NoTable | Done(state: State)

  /** Where the partition at hand goes: a slot of the table, or the chain. */
  function PlacedAt(conf: Conf, st: State, cnt: nat): Placement
    requires conf.sect > 0 && cnt < |st.parts|
  {
    if st.extended then Logical(conf, st.parts[cnt], FollowOf(st.parts, cnt), st.cur, st.ext)
    else Primary(conf, st.parts[cnt], cnt, st.cur)
  }

  /** There is no slot for it, or it wants the whole rest before the last partition. */
  predicate Refused(st: State, cnt: nat)
    requires cnt < |st.parts|
  {
    if st.extended then st.parts[cnt].lenKb == FILL && cnt + 1 < |st.parts| else cnt >= SLOTS
  }

  /** The entry or boot record of a partition that has room. */
  function Place(conf: Conf, st: State, cnt: nat): Outcome
    requires conf.sect > 0 && cnt < |st.parts|
  {
    if Refused(st, cnt) then NoTable else Done(Put(st, cnt, PlacedAt(conf, st, cnt)))
  }

  /** One turn of the loop. */
  function Turn(conf: Conf, st0: State, cnt: nat): Outcome
    requires conf.sect > 0 && cnt < |st0.parts|
  {
    var st := OpenExtended(conf, st0, cnt);
    var p := st.parts[cnt];
    if NoSpace(conf, p, st.cur, st.extended) then NoTable else Place(conf, st, cnt)
  }

  /** The first n turns. */
  function Turns(conf: Conf, parts: seq<Part>, n: nat): (r: Outcome)
    requires conf.sect > 0 && n <= |parts|
    ensures r.Done? ==> |r.state.parts| == |parts|
  {
    if n == 0 then Done(State(conf.skip, 0, false, [], parts))
    else
      var before := Turns(conf, parts, n - 1);
      if before.NoTable? then NoTable else Turn(conf, before.state, n - 1)
  }

  /** No turn follows one that finds no room. */
  lemma {:induction false} TurnsStop(conf: Conf, parts: seq<Part>, n: nat, m: nat)
    requires conf.sect > 0 && n <= m <= |parts| && Turns(conf, parts, n).NoTable?
    ensures Turns(conf, parts, m).NoTable?
  {
    hide Turn;
    if n < m {
      TurnsStop(conf, parts, n, m - 1);
    }
  }

  /** Empty entries for the slots from n on, newest first. */
  function Blanks(n: nat): seq<Write>
    decreases SLOTS - n
  {
    if n >= SLOTS then [] else Blanks(n + 1) + [SlotWrite(n, PEntry(NORMAL, 0, 0, 0))]
  }

  /** The whole list of writes, in the order in which they are committed. */
  function Config(conf: Conf, parts: seq<Part>): Outcome
    requires conf.sect > 0
  {
    var r := Turns(conf, parts, |parts|);
    if r.NoTable? then NoTable
    else Done(r.state.(writes := [Write(TABLE_OFFSET, BlankTable())] + (Blanks(|parts|) + r.state.writes)))
  }

  /** Every write stays on the disk. */
  predicate Fit(disk: seq<byte>, ws: seq<Write>) {
    forall i :: 0 <= i < |ws| ==> ws[i].offset + |ws[i].data| <= |disk|
  }

  /** The disk after a list of writes, from the head of the list on. */
  function Commit(disk: seq<byte>, ws: seq<Write>): (r: seq<byte>)
    requires Fit(disk, ws)
    ensures |r| == |disk|
    decreases |ws|
  {
    if ws == [] then disk else Commit(Splice(disk, ws[0].offset, ws[0].data), ws[1..])
  }

  predicate Touches(ws: seq<Write>, i: int) {
    exists k :: 0 <= k < |ws| && ws[k].offset <= i < ws[k].offset + |ws[k].data|
  }

  /** Writes leave what they do not touch. */
  lemma {:induction false} CommitElsewhere(disk: seq<byte>, ws: seq<Write>, i: nat)
    requires Fit(disk, ws) && i < |disk| && !Touches(ws, i)
    ensures Commit(disk, ws)[i] == disk[i]
    decreases |ws|
  {
    if ws != [] {
      assert !(ws[0].offset <= i < ws[0].offset + |ws[0].data|);
      assert forall k :: 0 <= k < |ws[1..]| ==> ws[1..][k] == ws[k + 1];
      CommitElsewhere(Splice(disk, ws[0].offset, ws[0].data), ws[1..], i);
    }
  }

  /** Writes split into an early and a late part. */
  lemma {:induction false} CommitSplits(disk: seq<byte>, early: seq<Write>, late: seq<Write>)
    requires Fit(disk, early + late)
    ensures Fit(disk, early) && Fit(Commit(disk, early), late)
    ensures Commit(disk, early + late) == Commit(Commit(disk, early), late)
    decreases |early|
  {
    assert forall k :: 0 <= k < |early| ==> (early + late)[k] == early[k];
    assert forall k :: 0 <= k < |late| ==> (early + late)[|early| + k] == late[k];
    if early == [] {
      assert early + late == late;
    } else {
      assert (early + late)[1..] == early[1..] + late;
      CommitSplits(Splice(disk, early[0].offset, early[0].data), early[1..], late);
    }
  }

  /** The index of the first partition with the name, or |parts|. */
  function First(parts: seq<Part>, name: string): (i: nat)
    ensures i <= |parts|
  {
    if parts == [] || parts[0].name == name then 0 else 1 + First(parts[1..], name)
  }

  lemma {:induction false} FirstIsUnique(parts: seq<Part>, name: string, i: nat)
    requires i <= |parts| && forall j :: 0 <= j < i ==> parts[j].name != name
    requires i < |parts| ==> parts[i].name == name
    ensures First(parts, name) == i
  {
    if i > 0 {
      FirstIsUnique(parts[1..], name, i - 1);
    }
  }

  lemma {:induction false} FirstHasName(parts: seq<Part>, name: string)
    ensures forall j :: 0 <= j < First(parts, name) ==> parts[j].name != name
    ensures First(parts, name) < |parts| ==> parts[First(parts, name)].name == name
  {
    if parts != [] && parts[0].name != name {
      FirstHasName(parts[1..], name);
      forall j | 0 < j < First(parts, name) ensures parts[j].name != name {
        assert parts[j] == parts[1..][j - 1];
      }
    }
  }

  /** The number of a partition's device, counted from 1; the extended partition takes number 4. Zero: no device. */
  function DeviceNumber(parts: seq<Part>, name: string): nat {
    var i := First(parts, name);
    if i == |parts| then 0 else if |parts| > SLOTS && i >= SLOTS - 1 then i + 2 else i + 1
  }
}
