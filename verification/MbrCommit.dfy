/** What the committed writes leave on the disk: the table in sector 0 and every boot record. */
module MbrCommit {
  import opened Arithmetic
  import opened Bytes
  import opened MbrConfig
  import opened MbrLayout

  /** A table that came out, for a disk that holds the sectors it is about. */
  predicate Ready(conf: Conf, parts: seq<Part>, disk: seq<byte>) {
    && Unwrapped(conf, parts) && conf.sect >= RECORD_BYTES && conf.skip >= 1
    && |disk| >= Offset(conf.num, conf.sect)
    && Config(conf, parts).Done?
  }

  /** Room for the partitions is enough, whatever their lengths. */
  lemma FittingIsReady(conf: Conf, parts: seq<Part>, disk: seq<byte>)
    requires Unwrapped(conf, parts) && conf.sect >= RECORD_BYTES && conf.skip >= 1
    requires |disk| >= Offset(conf.num, conf.sect)
    ensures Ready(conf, parts, disk) <==> AllAccepted(conf, parts)
    ensures AllFit(conf, parts) ==> Ready(conf, parts, disk)
  {
    hide Config, Accepts, Fits, Unwrapped;
    SucceedsExactly(conf, parts);
    if AllFit(conf, parts) {
      FittingIsAccepted(conf, parts);
    }
  }

  predicate NoOverlap(a: Write, b: Write) {
    a.offset + |a.data| <= b.offset || b.offset + |b.data| <= a.offset
  }

  predicate Holds(disk: seq<byte>, w: Write) {
    w.offset + |w.data| <= |disk| && Slice(disk, w.offset, |w.data|) == w.data
  }

  lemma SpliceHolds(disk: seq<byte>, w: Write)
    requires w.offset + |w.data| <= |disk|
    ensures Holds(Splice(disk, w.offset, w.data), w)
  {
    SliceOfSplice(disk, w.offset, w.data);
  }

  lemma SpliceKeeps(disk: seq<byte>, w: Write, v: Write)
    requires w.offset + |w.data| <= |disk| && Holds(disk, v) && NoOverlap(w, v)
    ensures Holds(Splice(disk, w.offset, w.data), v)
  {
    SliceElsewhere(disk, w.offset, w.data, v.offset, |v.data|);
  }

  /** A write that none of the list overlaps stays as it is. */
  lemma {:induction false} CommitKeeps(disk: seq<byte>, ws: seq<Write>, w: Write)
    requires Fit(disk, ws) && Holds(disk, w) && forall v :: v in ws ==> NoOverlap(v, w)
    ensures Holds(Commit(disk, ws), w)
    decreases |ws|
  {
    if ws != [] {
      assert forall k :: 0 <= k < |ws[1..]| ==> ws[1..][k] == ws[k + 1];
      assert NoOverlap(ws[0], w) && forall v :: v in ws[1..] ==> v in ws;
      SpliceKeeps(disk, ws[0], w);
      CommitKeeps(Splice(disk, ws[0].offset, ws[0].data), ws[1..], w);
    }
  }

  /** The extended partition's entry. */
  function Opening(conf: Conf, parts: seq<Part>): Write
    requires conf.sect > 0 && |parts| > SLOTS
  {
    Extended(conf, SLOTS - 1, U32(Cur(conf, parts, SLOTS - 1)))
  }

  /** The sectors of a table that came out. */
  lemma CursFit(conf: Conf, parts: seq<Part>, i: nat)
    requires Unwrapped(conf, parts) && Config(conf, parts).Done? && i < |parts|
    ensures conf.skip <= Cur(conf, parts, i) < conf.num && Start(conf, parts, i) < conf.num
    ensures 0 <= Len(conf, parts, i) && Len(conf, parts, i) + 1 < LIMIT
  {
    hide Config, Cur, Sectors, Estimate;
    SucceedsExactly(conf, parts);
    assert Accepts(conf, parts, i);
    CursAscend(conf, parts, 0, i);
    EndsBelow(conf, parts, i);
    CurAfter(conf, parts, i);
  }

  lemma RecordFits(at: uint32, num: uint32, sect: uint32, size: nat)
    requires RECORD_BYTES <= sect && 1 <= at < num && Offset(num, sect) <= size
    ensures RECORD_BYTES <= Offset(at, sect) && Offset(at, sect) + RECORD_BYTES <= size
  {
    MulLe(at + 1, num, sect);
    MulLe(1, at, sect);
  }

  lemma RecordsApart(a: uint32, b: uint32, sect: uint32)
    requires RECORD_BYTES <= sect && a < b
    ensures Offset(a, sect) + RECORD_BYTES <= Offset(b, sect)
  {
    MulLe(a + 1, b, sect);
  }

  /** Where a wanted write goes. */
  lemma WantedPlace(conf: Conf, parts: seq<Part>, i: nat, size: nat)
    requires Unwrapped(conf, parts) && Config(conf, parts).Done? && i < |parts|
    requires conf.sect >= RECORD_BYTES && conf.skip >= 1 && size >= Offset(conf.num, conf.sect)
    ensures var w := Wanted(conf, parts, i);
            if Chained(parts, i)
            then w.offset == Offset(U32(Cur(conf, parts, i)), conf.sect) && |w.data| == RECORD_BYTES
                 && RECORD_BYTES <= w.offset && w.offset + RECORD_BYTES <= size
            else i < SLOTS && w.offset == TABLE_OFFSET + 16 * i && |w.data| == 16
    ensures RECORD_BYTES <= size
  {
    hide Cur, Offset, Record, PEntry, WantedLink, Config, Unwrapped;
    CursFit(conf, parts, i);
    RecordFits(Cur(conf, parts, i), conf.num, conf.sect, size);
  }

  lemma SizeOfDisk(conf: Conf, size: nat)
    requires conf.sect >= RECORD_BYTES && conf.num > 0 && size >= Offset(conf.num, conf.sect)
    ensures RECORD_BYTES <= size
  {
    MulLe(1, conf.num, conf.sect);
  }

  /** No two wanted writes overlap. */
  lemma WantedApart(conf: Conf, parts: seq<Part>, i: nat, j: nat, size: nat)
    requires Unwrapped(conf, parts) && Config(conf, parts).Done? && i < j < |parts|
    requires conf.sect >= RECORD_BYTES && conf.skip >= 1 && size >= Offset(conf.num, conf.sect)
    ensures NoOverlap(Wanted(conf, parts, i), Wanted(conf, parts, j))
  {
    hide Cur, Offset, Wanted, Config, Unwrapped;
    WantedPlace(conf, parts, i, size);
    WantedPlace(conf, parts, j, size);
    CursFit(conf, parts, i);
    CursFit(conf, parts, j);
    if Chained(parts, i) {
      RecordOrder(conf, parts, i, j);
      RecordsApart(Cur(conf, parts, i), Cur(conf, parts, j), conf.sect);
    }
  }

  lemma RecordOrder(conf: Conf, parts: seq<Part>, i: nat, j: nat)
    requires Unwrapped(conf, parts) && Config(conf, parts).Done? && i < j < |parts| && Chained(parts, i)
    ensures Cur(conf, parts, i) < Cur(conf, parts, j)
  {
    hide Cur, Config;
    SucceedsExactly(conf, parts);
    CursAscend(conf, parts, i + 1, j);
    CursFit(conf, parts, i);
    CurAfter(conf, parts, i);
  }

  /** One of the writes for the first n partitions. */
  ghost predicate IsWanted(conf: Conf, parts: seq<Part>, n: nat, w: Write)
    requires conf.sect > 0 && n <= |parts|
  {
    (exists j :: 0 <= j < n && w == Wanted(conf, parts, j)) || (IsOpen(parts, n) && w == Opening(conf, parts))
  }

  predicate IsOpen(parts: seq<Part>, n: nat) {
    n >= SLOTS && |parts| > SLOTS
  }

  lemma {:induction false} AllAreWanted(conf: Conf, parts: seq<Part>, n: nat)
    requires conf.sect > 0 && n <= |parts|
    ensures forall w :: w in AllWanted(conf, parts, n) ==> IsWanted(conf, parts, n, w)
  {
    hide Wanted, Extended, Cur;
    if n > 0 {
      AllAreWanted(conf, parts, n - 1);
      assert Wanted(conf, parts, n - 1) == Wanted(conf, parts, n - 1);
      forall w | w in AllWanted(conf, parts, n) ensures IsWanted(conf, parts, n, w) {
        if w in AllWanted(conf, parts, n - 1) && !(IsOpen(parts, n) && w == Opening(conf, parts)) {
          assert IsWanted(conf, parts, n - 1, w);
        }
      }
    }
  }

  lemma OpeningApart(conf: Conf, parts: seq<Part>, j: nat, size: nat)
    requires Unwrapped(conf, parts) && Config(conf, parts).Done? && j < |parts| && |parts| > SLOTS
    requires conf.sect >= RECORD_BYTES && conf.skip >= 1 && size >= Offset(conf.num, conf.sect)
    ensures NoOverlap(Opening(conf, parts), Wanted(conf, parts, j))
    ensures Opening(conf, parts).offset == TABLE_OFFSET + 48 && |Opening(conf, parts).data| == 16
  {
    hide Cur, Offset, Wanted, Config, Unwrapped;
    WantedPlace(conf, parts, j, size);
  }

  /** The writes for the first n partitions are all there at the end, whatever was on the disk. */
  lemma {:induction false} AllHold(conf: Conf, parts: seq<Part>, n: nat, disk: seq<byte>)
    requires Ready(conf, parts, disk) && n <= |parts|
    ensures Fit(disk, AllWanted(conf, parts, n))
    ensures var final := Commit(disk, AllWanted(conf, parts, n));
            && (forall j :: 0 <= j < n ==> Holds(final, Wanted(conf, parts, j)))
            && (IsOpen(parts, n) ==> Holds(final, Opening(conf, parts)))
  {
    hide Cur, Offset, Wanted, Config, Unwrapped, Extended, NoOverlap, Slice, Splice, Commit, IsWanted;
    if n > 0 {
      var ws := AllWanted(conf, parts, n);
      var w, rest := Wanted(conf, parts, n - 1), AllWanted(conf, parts, n - 1);
      WantedPlace(conf, parts, n - 1, |disk|);
      var d1 := Splice(disk, w.offset, w.data);
      SpliceHolds(disk, w);
      RestApart(conf, parts, n - 1, |disk|);
      if n == SLOTS && |parts| > SLOTS {
        var o := Opening(conf, parts);
        OpeningApart(conf, parts, n - 1, |disk|);
        var d2 := Splice(d1, o.offset, o.data);
        SpliceHolds(d1, o);
        SpliceKeeps(d1, o, w);
        AllHold(conf, parts, n - 1, d2);
        OpeningRest(conf, parts, |disk|);
        CommitKeeps(d2, rest, w);
        CommitKeeps(d2, rest, o);
        TwoFirst(disk, w, o, rest);
        assert ws == [w] + ([o] + rest);
      } else {
        AllHold(conf, parts, n - 1, d1);
        CommitKeeps(d1, rest, w);
        OneFirst(disk, w, rest);
        assert ws == [w] + rest;
      }
    }
  }

  lemma OneFirst(disk: seq<byte>, w: Write, rest: seq<Write>)
    requires w.offset + |w.data| <= |disk| && Fit(Splice(disk, w.offset, w.data), rest)
    ensures Fit(disk, [w] + rest)
    ensures Commit(disk, [w] + rest) == Commit(Splice(disk, w.offset, w.data), rest)
  {
    assert ([w] + rest)[1..] == rest;
  }

  lemma TwoFirst(disk: seq<byte>, w: Write, o: Write, rest: seq<Write>)
    requires w.offset + |w.data| <= |disk| && o.offset + |o.data| <= |disk|
    requires Fit(Splice(Splice(disk, w.offset, w.data), o.offset, o.data), rest)
    ensures Fit(disk, [w] + ([o] + rest))
    ensures Commit(disk, [w] + ([o] + rest)) == Commit(Splice(Splice(disk, w.offset, w.data), o.offset, o.data), rest)
  {
    OneFirst(Splice(disk, w.offset, w.data), o, rest);
    OneFirst(disk, w, [o] + rest);
  }

  /** Earlier partitions' writes do not overlap partition n's. */
  lemma RestApart(conf: Conf, parts: seq<Part>, n: nat, size: nat)
    requires Unwrapped(conf, parts) && Config(conf, parts).Done? && n < |parts|
    requires conf.sect >= RECORD_BYTES && conf.skip >= 1 && size >= Offset(conf.num, conf.sect)
    ensures forall w :: w in AllWanted(conf, parts, n) ==> NoOverlap(w, Wanted(conf, parts, n))
  {
    hide Cur, Offset, Wanted, Config, Unwrapped, Opening, AllWanted, NoOverlap;
    AllAreWanted(conf, parts, n);
    forall w | w in AllWanted(conf, parts, n) ensures NoOverlap(w, Wanted(conf, parts, n)) {
      assert IsWanted(conf, parts, n, w);
      if IsOpen(parts, n) && w == Opening(conf, parts) {
        OpeningApart(conf, parts, n, size);
      } else {
        var j :| 0 <= j < n && w == Wanted(conf, parts, j);
        WantedApart(conf, parts, j, n, size);
      }
    }
  }

  lemma OpeningRest(conf: Conf, parts: seq<Part>, size: nat)
    requires Unwrapped(conf, parts) && Config(conf, parts).Done? && |parts| > SLOTS
    requires conf.sect >= RECORD_BYTES && conf.skip >= 1 && size >= Offset(conf.num, conf.sect)
    ensures forall w :: w in AllWanted(conf, parts, SLOTS - 1) ==> NoOverlap(w, Opening(conf, parts))
  {
    hide Cur, Offset, Wanted, Config, Unwrapped, Opening, AllWanted;
    AllAreWanted(conf, parts, SLOTS - 1);
    forall w | w in AllWanted(conf, parts, SLOTS - 1) ensures NoOverlap(w, Opening(conf, parts)) {
      assert IsWanted(conf, parts, SLOTS - 1, w);
      var j :| 0 <= j < SLOTS - 1 && w == Wanted(conf, parts, j);
      OpeningApart(conf, parts, j, size);
    }
  }

  lemma BlankEntry()
    ensures PEntry(NORMAL, 0, 0, 0) == Zeros(16)
  {
    ZeroLE(4);
    hide LE;
  }

  lemma SpliceSame(s: seq<byte>, off: nat, d: seq<byte>)
    requires off + |d| <= |s| && Slice(s, off, |d|) == d
    ensures Splice(s, off, d) == s
  {
    assert forall i :: off <= i < off + |d| ==> s[i] == Slice(s, off, |d|)[i - off];
  }

  /** Over an empty table the empty entries change nothing. */
  lemma {:induction false} BlanksAreIdle(disk: seq<byte>, n: nat)
    requires Holds(disk, Write(TABLE_OFFSET, BlankTable()))
    ensures Fit(disk, Blanks(n)) && Commit(disk, Blanks(n)) == disk
    decreases SLOTS - n
  {
    if n < SLOTS {
      BlanksAreIdle(disk, n + 1);
      BlankSlot(disk, n);
      BlankEntry();
      hide PEntry;
      var w := SlotWrite(n, Zeros(16));
      SpliceSame(disk, w.offset, w.data);
      OneFirst(disk, w, []);
      assert [w] + [] == [w];
      assert Fit(disk, Blanks(n + 1) + [w]);
      CommitSplits(disk, Blanks(n + 1), [w]);
    }
  }

  lemma BlankSlot(disk: seq<byte>, i: nat)
    requires Holds(disk, Write(TABLE_OFFSET, BlankTable())) && i < SLOTS
    ensures Holds(disk, SlotWrite(i, Zeros(16)))
  {
    var table, w := BlankTable(), SlotWrite(i, Zeros(16));
    assert Slice(disk, TABLE_OFFSET, 66) == table;
    SliceInSlice(disk, TABLE_OFFSET, 66, 16 * i, 16);
    assert Slice(table, 16 * i, 16) == Zeros(16);
    assert Slice(disk, w.offset, |w.data|) == Slice(table, 16 * i, 16);
  }

  lemma BlankSignature(disk: seq<byte>)
    requires Holds(disk, Write(TABLE_OFFSET, BlankTable()))
    ensures Holds(disk, Write(TABLE_OFFSET + 64, [0x55, 0xaa]))
  {
    var table := BlankTable();
    assert Slice(disk, TABLE_OFFSET, 66) == table;
    SliceInSlice(disk, TABLE_OFFSET, 66, 64, 2);
    assert Slice(table, 64, 2) == [0x55, 0xaa];
  }

  /** The disk with an empty table in front. */
  function Blanked(disk: seq<byte>): (r: seq<byte>)
    requires |disk| >= RECORD_BYTES
    ensures |r| == |disk|
  {
    Splice(disk, TABLE_OFFSET, BlankTable())
  }

  /** Committing the list empties the table first, then writes the partitions from the last to the first. */
  lemma CommitIsWanted(conf: Conf, parts: seq<Part>, disk: seq<byte>)
    requires Ready(conf, parts, disk)
    ensures var ws, wanted := Config(conf, parts).state.writes, AllWanted(conf, parts, |parts|);
            && |disk| >= RECORD_BYTES && Fit(disk, ws) && Fit(Blanked(disk), wanted)
            && Commit(disk, ws) == Commit(Blanked(disk), wanted)
  {
    hide Cur, Offset, Wanted, Extended, Turns, Blanks, AllWanted, BlankTable, Splice;
    SizeOfDisk(conf, |disk|);
    TurnsPlace(conf, parts, |parts|);
    var w := Write(TABLE_OFFSET, BlankTable());
    SpliceHolds(disk, w);
    var d1 := Blanked(disk);
    BlanksAreIdle(d1, |parts|);
    assert Ready(conf, parts, d1);
    AllHold(conf, parts, |parts|, d1);
    var blanks, wanted := Blanks(|parts|), AllWanted(conf, parts, |parts|);
    FitJoins(d1, blanks, wanted);
    CommitSplits(d1, blanks, wanted);
    OneFirst(disk, w, blanks + wanted);
  }

  lemma FitJoins(disk: seq<byte>, early: seq<Write>, late: seq<Write>)
    requires Fit(disk, early) && Fit(disk, late)
    ensures Fit(disk, early + late)
  {
  }

  /** The entry that belongs in a slot of the table. */
  function SlotEntry(conf: Conf, parts: seq<Part>, slot: nat): (s: seq<byte>)
    requires conf.sect > 0 && slot < SLOTS
  {
    if slot >= |parts| then Zeros(16)
    else if Chained(parts, slot) then Opening(conf, parts).data
    else Wanted(conf, parts, slot).data
  }

  /** Byte b belongs neither to the table nor to a boot record. */
  predicate Outside(conf: Conf, parts: seq<Part>, b: nat)
    requires conf.sect > 0
  {
    && !(TABLE_OFFSET <= b < RECORD_BYTES)
    && forall j :: 0 <= j < |parts| && Chained(parts, j) ==>
         var off := Offset(U32(Cur(conf, parts, j)), conf.sect);
         !(off <= b < off + RECORD_BYTES)
  }

  function Final(conf: Conf, parts: seq<Part>, disk: seq<byte>): (r: seq<byte>)
    requires Ready(conf, parts, disk)
    ensures |r| == |disk| >= RECORD_BYTES
  {
    CommitIsWanted(conf, parts, disk);
    Commit(disk, Config(conf, parts).state.writes)
  }

  /** The table in the first sector: the entries in slot order, nothing in the unused slots, the signature. */
  lemma TableCommitted(conf: Conf, parts: seq<Part>, disk: seq<byte>, slot: nat)
    requires Ready(conf, parts, disk) && slot < SLOTS
    ensures Holds(Final(conf, parts, disk), SlotWrite(slot, SlotEntry(conf, parts, slot)))
    ensures Holds(Final(conf, parts, disk), Write(TABLE_OFFSET + 64, [0x55, 0xaa]))
  {
    hide Cur, Offset, Config, Unwrapped, Extended, AllWanted, Splice, Commit, BlankTable, IsWanted;
    CommitIsWanted(conf, parts, disk);
    var d1, wanted := Blanked(disk), AllWanted(conf, parts, |parts|);
    SpliceHolds(disk, Write(TABLE_OFFSET, BlankTable()));
    AllHold(conf, parts, |parts|, d1);
    BlankSignature(d1);
    TailApart(conf, parts, |disk|);
    CommitKeeps(d1, wanted, Write(TABLE_OFFSET + 64, [0x55, 0xaa]));
    if slot >= |parts| {
      BlankSlot(d1, slot);
      CommitKeeps(d1, wanted, SlotWrite(slot, Zeros(16)));
    } else if Chained(parts, slot) {
      assert Holds(Final(conf, parts, disk), Opening(conf, parts));
      OpeningApart(conf, parts, slot, |disk|);
    } else {
      assert Holds(Final(conf, parts, disk), Wanted(conf, parts, slot));
      WantedPlace(conf, parts, slot, |disk|);
    }
  }

  /** No partition's write reaches the signature or an unused slot. */
  lemma TailApart(conf: Conf, parts: seq<Part>, size: nat)
    requires Unwrapped(conf, parts) && Config(conf, parts).Done?
    requires conf.sect >= RECORD_BYTES && conf.skip >= 1 && size >= Offset(conf.num, conf.sect)
    ensures forall w :: w in AllWanted(conf, parts, |parts|) ==>
              NoOverlap(w, Write(TABLE_OFFSET + 64, [0x55, 0xaa]))
              && forall slot :: |parts| <= slot < SLOTS ==> NoOverlap(w, SlotWrite(slot, Zeros(16)))
  {
    hide Cur, Offset, Wanted, Config, Unwrapped, Opening, AllWanted;
    AllAreWanted(conf, parts, |parts|);
    forall w | w in AllWanted(conf, parts, |parts|)
      ensures NoOverlap(w, Write(TABLE_OFFSET + 64, [0x55, 0xaa]))
              && forall slot :: |parts| <= slot < SLOTS ==> NoOverlap(w, SlotWrite(slot, Zeros(16)))
    {
      assert IsWanted(conf, parts, |parts|, w);
      if IsOpen(parts, |parts|) && w == Opening(conf, parts) {
        OpeningApart(conf, parts, 0, size);
      } else {
        var j :| 0 <= j < |parts| && w == Wanted(conf, parts, j);
        WantedPlace(conf, parts, j, size);
      }
    }
  }

  /** Every boot record, whole. */
  lemma RecordCommitted(conf: Conf, parts: seq<Part>, disk: seq<byte>, j: nat)
    requires Ready(conf, parts, disk) && j < |parts| && Chained(parts, j)
    ensures Holds(Final(conf, parts, disk), Wanted(conf, parts, j))
  {
    hide Cur, Offset, Config, Unwrapped, AllWanted, Splice, Commit, Wanted;
    CommitIsWanted(conf, parts, disk);
    AllHold(conf, parts, |parts|, Blanked(disk));
  }

  /** Nothing else changes: not the code in front of the table, not the partitions. */
  lemma ElsewhereUntouched(conf: Conf, parts: seq<Part>, disk: seq<byte>, b: nat)
    requires Ready(conf, parts, disk) && b < |disk| && Outside(conf, parts, b)
    ensures Final(conf, parts, disk)[b] == disk[b]
  {
    hide Cur, Offset, Config, Unwrapped, AllWanted, Splice, Commit, Wanted, Opening, BlankTable;
    CommitIsWanted(conf, parts, disk);
    var d1, wanted := Blanked(disk), AllWanted(conf, parts, |parts|);
    AllAreWanted(conf, parts, |parts|);
    forall k | 0 <= k < |wanted| ensures !(wanted[k].offset <= b < wanted[k].offset + |wanted[k].data|) {
      var w := wanted[k];
      assert w in wanted && IsWanted(conf, parts, |parts|, w);
      if IsOpen(parts, |parts|) && w == Opening(conf, parts) {
        OpeningApart(conf, parts, 0, |disk|);
      } else {
        var j :| 0 <= j < |parts| && w == Wanted(conf, parts, j);
        WantedPlace(conf, parts, j, |disk|);
      }
    }
    CommitElsewhere(d1, wanted, b);
  }
}
