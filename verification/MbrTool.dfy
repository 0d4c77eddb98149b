/** The tool's loop over the configured partitions, and the linked list of writes it builds. */
module MbrTool {
  import opened Bytes
  import opened MbrConfig
  import opened Storage

  class PartInfo {
    const name: string
    const active: bool
    const ptype: byte
    var lenKb: uint32
    var startLba: uint32

    constructor (name: string, active: bool, ptype: byte, lenKb: uint32)
      ensures View() == Part(name, active, ptype, lenKb, 0)
    {
      this.name, this.active, this.ptype, this.lenKb, startLba := name, active, ptype, lenKb, 0;
    }

    function View(): Part
      reads this
    {
      Part(name, active, ptype, lenKb, startLba)
    }
  }

  /** One write, and those that follow it. */
  class WriteNode {
    const offset: nat
    const data: seq<byte>
    var next: WriteNode?
    ghost var repr: set<WriteNode>
    ghost var list: seq<Write>

    constructor (offset: nat, data: seq<byte>)
      ensures Alone() && View() == Write(offset, data)
    {
      this.offset, this.data, next := offset, data, null;
      repr, list := {this}, [Write(offset, data)];
    }

    function View(): Write {
      Write(offset, data)
    }

    ghost predicate Alone()
      reads this
    {
      next == null && repr == {this} && list == [View()]
    }

    ghost predicate Valid()
      reads this, repr
      ensures Valid() ==> this in repr
    {
      && this in repr
      && (next == null ==> list == [View()])
      && (next != null ==> next in repr && next.repr <= repr && this !in next.repr && next.Valid()
                           && list == [View()] + next.list)
    }
  }

  ghost predicate ValidList(lst: WriteNode?)
    reads lst, if lst != null then lst.repr else {}
  {
    lst == null || lst.Valid()
  }

  ghost function ListOf(lst: WriteNode?): seq<Write>
    reads lst
  {
    if lst == null then [] else lst.list
  }

  ghost function ReprOf(lst: WriteNode?): set<WriteNode>
    reads lst
  {
    if lst == null then {} else lst.repr
  }

  /** Put a write in front of the list. */
  method WlistAdd(lst: WriteNode?, item: WriteNode) returns (r: WriteNode)
    requires ValidList(lst) && item.Alone() && item !in ReprOf(lst)
    modifies item
    ensures r == item && r.Valid() && r.repr == {item} + ReprOf(lst)
    ensures r.list == [item.View()] + old(ListOf(lst))
  {
    item.next := lst;
    item.repr := {item} + ReprOf(lst);
    item.list := [item.View()] + ListOf(lst);
    r := item;
  }

  /** Carry out the writes from the head of the list on. */
  method WlistCommit(disk: Disk, lst: WriteNode?)
    requires ValidList(lst) && Fit(disk.Contents(), ListOf(lst))
    modifies disk`log, disk.data
    ensures disk.Contents() == Commit(old(disk.Contents()), ListOf(lst))
  {
    var node := lst;
    ghost var d0 := disk.Contents();
    while node != null
      invariant ValidList(node) && Fit(disk.Contents(), ListOf(node))
      invariant Commit(disk.Contents(), ListOf(node)) == Commit(d0, ListOf(lst))
      decreases |ListOf(node)|
    {
      assert forall k :: 0 <= k < |ListOf(node)[1..]| ==> ListOf(node)[1..][k] == ListOf(node)[k + 1];
      assert ListOf(node.next) == ListOf(node)[1..];
      disk.WriteAt(node.offset, node.data);
      node := node.next;
    }
  }

  class DiskInfo {
    const conf: Conf
    const parts: seq<PartInfo>

    constructor (conf: Conf, parts: seq<PartInfo>)
      ensures this.conf == conf && this.parts == parts
    {
      this.conf, this.parts := conf, parts;
    }

    /** The partition records are distinct. */
    predicate Distinct() {
      forall i, j :: 0 <= i < j < |parts| ==> parts[i] != parts[j]
    }

    function Views(): (r: seq<Part>)
      reads parts
      ensures |r| == |parts|
    {
      ViewsOf(parts)
    }

    static function ViewsOf(ps: seq<PartInfo>): (r: seq<Part>)
      reads ps
      ensures |r| == |ps| && forall i :: 0 <= i < |ps| ==> r[i] == ps[i].View()
    {
      seq(|ps|, i requires 0 <= i < |ps| reads ps => ps[i].View())
    }
  }

  /** A primary entry: the partition's, or without one the extended partition over the rest of the disk. */
  method MkPriPentry(conf: Conf, pinfo: PartInfo?, pnum: nat, lba: uint32) returns (item: WriteNode?, next: uint32)
    requires conf.sect > 0
    modifies if pinfo != null then {pinfo} else {}
    ensures item == null <==> pnum >= SLOTS
    ensures item != null ==> fresh(item) && item.Alone()
    ensures item != null && pinfo == null ==> next == lba && item.View() == Extended(conf, pnum, lba)
    ensures item != null && pinfo != null ==>
              Placement(item.View(), pinfo.View(), next) == Primary(conf, old(pinfo.View()), pnum, lba)
    ensures item == null && pinfo != null ==> pinfo.View() == old(pinfo.View())
  {
    next := lba;
    if pnum >= SLOTS {
      return null, lba;
    }
    if pinfo != null {
      var len: uint32;
      if pinfo.lenKb != FILL {
        len := KbToLba(pinfo.lenKb, conf.sect);
      } else {
        len := Sub32(conf.num, lba);
      }
      item := new WriteNode(TABLE_OFFSET + 16 * pnum,
                            PEntry(if pinfo.active then ACTIVE else NORMAL, pinfo.ptype, lba, len));
      pinfo.startLba := lba;
      next := Add32(lba, len);
    } else {
      item := new WriteNode(TABLE_OFFSET + 16 * pnum,
                            PEntry(NORMAL, TYPE_EXTENDED, lba, Sub32(conf.num, lba)));
    }
  }

  ghost function FollowView(pnext: PartInfo?): Follow
    reads pnext
  {
    if pnext == null then Last else Next(pnext.View())
  }

  /** An extended boot record at `lba`; none where a partition before the last one wants the whole rest. */
  method MkExtPentry(conf: Conf, pinfo: PartInfo, lba: uint32, ext: uint32, pnext: PartInfo?)
    returns (item: WriteNode?, next: uint32)
    requires conf.sect > 0 && pinfo != pnext
    modifies pinfo
    ensures item == null <==> old(pinfo.lenKb) == FILL && pnext != null
    ensures item == null ==> pinfo.View() == old(pinfo.View())
    ensures item != null ==> fresh(item) && item.Alone()
    ensures item != null ==>
              Placement(item.View(), pinfo.View(), next)
              == Logical(conf, old(pinfo.View()), FollowView(pnext), lba, ext)
  {
    var start := Add32(lba, 1);
    var len: uint32;
    if pinfo.lenKb != FILL {
      len := KbToLba(pinfo.lenKb, conf.sect);
    } else {
      if pnext != null {
        return null, start;
      }
      len := Sub32(conf.num, start);
      pinfo.lenKb := LbaToKb(len, conf.sect);
    }
    pinfo.startLba := start;
    next := Add32(start, len);
    var link := Zeros(16);
    if pnext != null {
      var linkLen: uint32;
      if pnext.lenKb != FILL {
        linkLen := Add32(1, KbToLba(pnext.lenKb, conf.sect));
      } else {
        linkLen := Sub32(conf.num, next);
      }
      link := PEntry(NORMAL, TYPE_EXTENDED, Sub32(next, ext), linkLen);
    }
    item := new WriteNode(Offset(lba, conf.sect), Record(PEntry(NORMAL, pinfo.ptype, 1, len), link));
  }

  method MkEmptyPtable() returns (item: WriteNode)
    ensures fresh(item) && item.Alone() && item.View() == Write(TABLE_OFFSET, BlankTable())
  {
    item := new WriteNode(TABLE_OFFSET, BlankTable());
  }

  /** An empty entry in front of the list. */
  method AddBlank(conf: Conf, lst0: WriteNode?, slot: nat) returns (lst: WriteNode)
    requires conf.sect > 0 && ValidList(lst0) && slot < SLOTS
    ensures lst.Valid() && fresh(lst.repr - ReprOf(lst0))
    ensures lst.list == [SlotWrite(slot, PEntry(NORMAL, 0, 0, 0))] + ListOf(lst0)
  {
    hide PEntry, LenFor;
    var blank := new PartInfo("", false, 0, 0);
    BlankLength(conf, blank.View(), 0);
    var item, _ := MkPriPentry(conf, blank, slot, 0);
    lst := WlistAdd(lst0, item);
  }

  lemma BlanksFrom(n: nat, ws: seq<Write>)
    ensures n >= SLOTS ==> Blanks(n) + ws == ws
    ensures n < SLOTS ==> Blanks(n) + ws == Blanks(n + 1) + ([SlotWrite(n, PEntry(NORMAL, 0, 0, 0))] + ws)
  {
    hide PEntry, SlotWrite;
  }

  /** Empty entries for the slots from `from` on. */
  method AddBlanks(conf: Conf, lst0: WriteNode?, from: nat) returns (lst: WriteNode?)
    requires conf.sect > 0 && ValidList(lst0)
    ensures ValidList(lst) && fresh(ReprOf(lst) - ReprOf(lst0))
    ensures ListOf(lst) == Blanks(from) + ListOf(lst0)
  {
    hide PEntry, SlotWrite, Blanks;
    lst := lst0;
    var cnt := from;
    ghost var list := ListOf(lst0);
    while cnt < SLOTS
      invariant ValidList(lst) && fresh(ReprOf(lst) - ReprOf(lst0)) && ListOf(lst) == list
      invariant Blanks(cnt) + list == Blanks(from) + ListOf(lst0)
      decreases SLOTS - cnt
    {
      BlanksFrom(cnt, list);
      lst := AddBlank(conf, lst, cnt);
      list := ListOf(lst);
      cnt := cnt + 1;
    }
    BlanksFrom(cnt, list);
  }

  /** What the loop's variables stand for. */
  ghost function StateOf(dinfo: DiskInfo, cur: uint32, ext: uint32, extended: bool, lst: WriteNode?): State
    reads dinfo.parts, lst
  {
    State(cur, ext, extended, ListOf(lst), dinfo.Views())
  }

  /** The check for room in front of each partition. */
  method RoomFor(conf: Conf, pinfo: PartInfo, cur: uint32, extended: bool) returns (ok: bool)
    requires conf.sect > 0
    ensures ok == !NoSpace(conf, pinfo.View(), cur, extended)
  {
    var ebr := if extended then 1 else 0;
    if conf.num != 0 && Add32(cur, ebr) >= conf.num {
      return false;
    } else if pinfo.lenKb != FILL {
      var sz := Mul32(pinfo.lenKb / conf.sect, 1024);
      if conf.num != 0 && Add32(Add32(cur, sz), ebr) > conf.num {
        return false;
      }
    }
    ok := true;
  }

  /** The entry or boot record of one partition. */
  method MakeEntry(dinfo: DiskInfo, cnt: nat, lba: uint32, ext: uint32, extended: bool)
    returns (item: WriteNode?, next: uint32)
    requires dinfo.conf.sect > 0 && dinfo.Distinct() && cnt < |dinfo.parts|
    modifies dinfo.parts[cnt]
    ensures item == null <==> Refused(old(StateOf(dinfo, lba, ext, extended, null)), cnt)
    ensures item == null ==> dinfo.Views() == old(dinfo.Views())
    ensures item != null ==> fresh(item) && item.Alone()
    ensures item != null ==>
              var pl := PlacedAt(dinfo.conf, old(StateOf(dinfo, lba, ext, extended, null)), cnt);
              item.View() == pl.write && next == pl.next && dinfo.Views() == old(dinfo.Views())[cnt := pl.part]
  {
    hide Primary, Logical;
    var pinfo := dinfo.parts[cnt];
    if !extended {
      item, next := MkPriPentry(dinfo.conf, pinfo, cnt, lba);
    } else {
      var pnext := if cnt + 1 < |dinfo.parts| then dinfo.parts[cnt + 1] else null;
      item, next := MkExtPentry(dinfo.conf, pinfo, lba, ext, pnext);
    }
    assert dinfo.Views() == old(dinfo.Views())[cnt := pinfo.View()];
  }

  /** The entry or boot record of one partition, put in front of the list. */
  method AddEntry(dinfo: DiskInfo, cnt: nat, cur0: uint32, ext: uint32, extended: bool, lst0: WriteNode?)
    returns (ok: bool, cur: uint32, lst: WriteNode?)
    requires dinfo.conf.sect > 0 && dinfo.Distinct() && cnt < |dinfo.parts| && ValidList(lst0)
    modifies dinfo.parts[cnt]
    ensures ValidList(lst) && fresh(ReprOf(lst) - ReprOf(lst0))
    ensures var r := Place(dinfo.conf, old(StateOf(dinfo, cur0, ext, extended, lst0)), cnt);
            ok == r.Done? && (ok ==> r.state == StateOf(dinfo, cur, ext, extended, lst))
    ensures !ok ==> dinfo.Views() == old(dinfo.Views())
  {
    hide Primary, Logical, WriteNode.Valid, DiskInfo.ViewsOf;
    var item: WriteNode?;
    item, cur := MakeEntry(dinfo, cnt, cur0, ext, extended);
    ok, lst := item != null, lst0;
    if item != null {
      lst := WlistAdd(lst, item);
    }
  }

  /** The extended partition's entry, where this is the fourth of more than four partitions. */
  method AddExtended(dinfo: DiskInfo, cnt: nat, cur: uint32, ext0: uint32, extended0: bool, lst0: WriteNode?)
    returns (ext: uint32, extended: bool, lst: WriteNode?)
    requires cnt < |dinfo.parts| && dinfo.conf.sect > 0 && ValidList(lst0)
    ensures ValidList(lst) && fresh(ReprOf(lst) - ReprOf(lst0))
    ensures StateOf(dinfo, cur, ext, extended, lst)
            == OpenExtended(dinfo.conf, StateOf(dinfo, cur, ext0, extended0, lst0), cnt)
  {
    hide Extended, WriteNode.Valid;
    ext, extended, lst := ext0, extended0, lst0;
    if cnt == SLOTS - 1 && cnt + 1 < |dinfo.parts| {
      extended, ext := true, cur;
      var item, _ := MkPriPentry(dinfo.conf, null, cnt, cur);
      lst := WlistAdd(lst, item);
    }
  }

  /** One partition: the body of the loop. */
  method AddPartition(dinfo: DiskInfo, cnt: nat, cur0: uint32, ext0: uint32, extended0: bool, lst0: WriteNode?)
    returns (ok: bool, cur: uint32, ext: uint32, extended: bool, lst: WriteNode?)
    requires dinfo.conf.sect > 0 && dinfo.Distinct() && cnt < |dinfo.parts| && ValidList(lst0)
    modifies dinfo.parts[cnt]
    ensures ValidList(lst) && fresh(ReprOf(lst) - ReprOf(lst0))
    ensures var turn := Turn(dinfo.conf, old(StateOf(dinfo, cur0, ext0, extended0, lst0)), cnt);
            ok == turn.Done? && (ok ==> turn.state == StateOf(dinfo, cur, ext, extended, lst))
    ensures !ok ==> dinfo.Views() == old(dinfo.Views())
  {
    hide OpenExtended, Place, NoSpace, WriteNode.Valid, DiskInfo.ViewsOf;
    cur := cur0;
    ext, extended, lst := AddExtended(dinfo, cnt, cur, ext0, extended0, lst0);
    ok := RoomFor(dinfo.conf, dinfo.parts[cnt], cur, extended);
    if ok {
      ok, cur, lst := AddEntry(dinfo, cnt, cur, ext, extended, lst);
    }
  }

  /** The list of writes for the whole table, or null. */
  method ConfigMbr(dinfo: DiskInfo) returns (lst: WriteNode?)
    requires dinfo.conf.sect > 0 && dinfo.Distinct()
    modifies dinfo.parts
    ensures ValidList(lst) && fresh(ReprOf(lst))
    ensures var r := Config(dinfo.conf, old(dinfo.Views()));
            && (lst == null <==> r.NoTable?)
            && (lst != null ==> ListOf(lst) == r.state.writes && dinfo.Views() == r.state.parts)
    ensures lst == null ==> exists k :: 0 <= k <= |dinfo.parts|
                                  && var r := Turns(dinfo.conf, old(dinfo.Views()), k);
                                     r.Done? && dinfo.Views() == r.state.parts
  {
    hide Turn, Blanks, WriteNode.Valid, DiskInfo.ViewsOf;
    var cur, ext, extended := dinfo.conf.skip, 0, false;
    lst := null;
    var cnt := 0;
    while cnt < |dinfo.parts|
      invariant cnt <= |dinfo.parts| && ValidList(lst) && fresh(ReprOf(lst))
      invariant Turns(dinfo.conf, old(dinfo.Views()), cnt) == Done(StateOf(dinfo, cur, ext, extended, lst))
    {
      var ok;
      ok, cur, ext, extended, lst := AddPartition(dinfo, cnt, cur, ext, extended, lst);
      if !ok {
        TurnsStop(dinfo.conf, old(dinfo.Views()), cnt + 1, |dinfo.parts|);
        return null;
      }
      cnt := cnt + 1;
    }
    lst := AddBlanks(dinfo.conf, lst, cnt);
    var item := MkEmptyPtable();
    lst := WlistAdd(lst, item);
  }

  /** The device number of the partition called `name`; none where there is no such partition. */
  method FindMbrPart(dinfo: DiskInfo, name: string) returns (num: nat)
    ensures num == DeviceNumber(dinfo.Views(), name)
  {
    var parts := dinfo.parts;
    num := 1;
    while num <= |parts| && parts[num - 1].name != name
      invariant 1 <= num <= |parts| + 1
      invariant forall i :: 0 <= i < num - 1 ==> parts[i].name != name
    {
      num := num + 1;
    }
    FirstIsUnique(dinfo.Views(), name, num - 1);
    if num > |parts| {
      return 0;
    }
    if |parts| > SLOTS && num >= SLOTS {
      num := num + 1;
    }
  }
}
