/** Where the loop puts the partitions, said without the loop: positions in unbounded integers, the
    writes they call for, and when there is room. */
module MbrLayout {
  import opened Arithmetic
  import opened Bytes
  import opened MbrConfig

  const LIMIT: nat := 0x1_0000_0000

  /** The sectors the loop asks for before it places a partition. */
  function Estimate(lenKb: uint32, sect: uint32): (n: nat)
    requires sect > 0
  {
    MulLe(0, lenKb / sect, 1024);
    lenKb / sect * 1024
  }

  /** What the loop asks for is never more than what it takes, and the same only for multiples of the
      sector size: the division by the sector size comes before the multiplication. */
  lemma EstimateIsExact(lenKb: uint32, sect: uint32)
    requires sect > 0
    ensures Estimate(lenKb, sect) <= Sectors(lenKb, sect)
    ensures Estimate(lenKb, sect) == Sectors(lenKb, sect) <==> lenKb % sect == 0
  {
    var q, r := lenKb / sect, lenKb % sect;
    var s := (r * 1024 + (sect - 1)) / sect;
    var rest := (r * 1024 + (sect - 1)) % sect;
    SplitProduct(sect, q, r, s, rest);
    DivModUnique(lenKb * 1024 + (sect - 1), sect, q * 1024 + s, rest);
    assert r == 0 ==> s == 0 by {
      if r == 0 {
        DivModUnique(sect - 1, sect, 0, sect - 1);
      }
    }
    assert r > 0 ==> s >= 1 by {
      if r > 0 && s < 1 {
        MulLe(s, 0, sect);
      }
    }
  }

  lemma SplitProduct(sect: nat, q: nat, r: nat, s: int, rest: int)
    requires r * 1024 + (sect - 1) == sect * s + rest
    ensures (sect * q + r) * 1024 + (sect - 1) == sect * (q * 1024 + s) + rest
  {
    assert (sect * q) * 1024 == sect * (q * 1024);
  }

  /** For every length that is asked for short, and of more than one sector, there is a disk on which
      the partition passes the check and runs past the end. */
  lemma OtherLengthsOvershoot(sect: uint32, p: Part)
    requires sect > 0 && p.lenKb != FILL && Sectors(p.lenKb, sect) + 3 < LIMIT
    requires 1 < Sectors(p.lenKb, sect) && Estimate(p.lenKb, sect) < Sectors(p.lenKb, sect)
    ensures var est := Estimate(p.lenKb, sect);
            var conf := Conf(sect, 1, 1 + if est == 0 then 1 else est);
            var r := Config(conf, [p]);
            && r.Done? && r.state.parts[0].startLba == 1
            && r.state.cur == 1 + Sectors(p.lenKb, sect) > conf.num
  {
    hide SlotWrite, PEntry, Blanks, BlankTable;
    var est := Estimate(p.lenKb, sect);
    var conf := Conf(sect, 1, 1 + if est == 0 then 1 else est);
    assert Mul32(p.lenKb / sect, 1024) == est;
    assert !NoSpace(conf, p, 1, false);
    assert Turns(conf, [p], 0) == Done(State(1, 0, false, [], [p]));
    assert Turns(conf, [p], 1) == Turn(conf, State(1, 0, false, [], [p]), 0);
  }

  /** The sector in front of a logical partition holds its boot record. */
  predicate Chained(parts: seq<Part>, i: nat) {
    |parts| > SLOTS && i >= SLOTS - 1
  }

  function Overhead(parts: seq<Part>, i: nat): nat {
    if Chained(parts, i) then 1 else 0
  }

  function LenAt(conf: Conf, p: Part, start: int): int
    requires conf.sect > 0
  {
    if p.lenKb != FILL then Sectors(p.lenKb, conf.sect) else conf.num - start
  }

  /** The first sector that partition i takes, boot record included. */
  function Cur(conf: Conf, parts: seq<Part>, i: nat): int
    requires conf.sect > 0 && i <= |parts|
  {
    if i == 0 then conf.skip
    else
      var start := Cur(conf, parts, i - 1) + Overhead(parts, i - 1);
      start + LenAt(conf, parts[i - 1], start)
  }

  function Start(conf: Conf, parts: seq<Part>, i: nat): int
    requires conf.sect > 0 && i < |parts|
  {
    Cur(conf, parts, i) + Overhead(parts, i)
  }

  function Len(conf: Conf, parts: seq<Part>, i: nat): int
    requires conf.sect > 0 && i < |parts|
  {
    LenAt(conf, parts[i], Start(conf, parts, i))
  }

  /** Partition i and its boot record end on the disk. */
  predicate Fits(conf: Conf, parts: seq<Part>, i: nat)
    requires conf.sect > 0 && i < |parts|
  {
    Start(conf, parts, i) < conf.num && Cur(conf, parts, i + 1) <= conf.num
  }

  predicate AllFit(conf: Conf, parts: seq<Part>)
    requires conf.sect > 0
  {
    forall i :: 0 <= i < |parts| ==> Fits(conf, parts, i)
  }

  /** What the loop checks of partition i: that it starts on the disk, and that what it asks for a
      fixed length ends there. Only the last logical partition may fill the disk. */
  predicate Accepts(conf: Conf, parts: seq<Part>, i: nat)
    requires conf.sect > 0 && i < |parts|
  {
    var p, start := parts[i], Start(conf, parts, i);
    && start < conf.num && (p.lenKb != FILL ==> start + Estimate(p.lenKb, conf.sect) <= conf.num)
    && !(Chained(parts, i) && p.lenKb == FILL && i + 1 < |parts|)
  }

  predicate AllAccepted(conf: Conf, parts: seq<Part>)
    requires conf.sect > 0
  {
    forall i :: 0 <= i < |parts| ==> Accepts(conf, parts, i)
  }

  /** No length is cut to 32 bits, and no partition that starts on the disk ends beyond 32 bits. */
  predicate Unwraps(conf: Conf, parts: seq<Part>, i: nat)
    requires conf.sect > 0 && i < |parts|
  {
    var p, start := parts[i], Start(conf, parts, i);
    p.lenKb != FILL ==>
      && Sectors(p.lenKb, conf.sect) + 1 < LIMIT
      && (start < conf.num ==> start + Sectors(p.lenKb, conf.sect) + 1 < LIMIT)
  }

  /** All that is asked of a configuration: a disk size, and sums that do not wrap. */
  predicate Unwrapped(conf: Conf, parts: seq<Part>) {
    conf.sect > 0 && 0 < conf.num < LIMIT - 1 && forall i :: 0 <= i < |parts| ==> Unwraps(conf, parts, i)
  }

  /** Disk size and partition together below 2^32 sectors are enough. */
  lemma SmallIsUnwrapped(conf: Conf, parts: seq<Part>)
    requires conf.sect > 0 && 0 < conf.num < LIMIT - 1
    requires forall i :: 0 <= i < |parts| && parts[i].lenKb != FILL ==> conf.num + 1 + Sectors(parts[i].lenKb, conf.sect) < LIMIT
    ensures Unwrapped(conf, parts)
  {
    hide Sectors, Cur;
  }

  /** A disk size of zero switches the check off: whatever the lengths, only a logical partition in front
      of the last that is to fill the disk is refused. */
  lemma {:induction false} UncheckedSucceeds(conf: Conf, parts: seq<Part>, n: nat)
    requires conf.sect > 0 && conf.num == 0 && n <= |parts|
    ensures Turns(conf, parts, n).Done? <==> forall i :: 0 <= i < n ==> !(Chained(parts, i) && parts[i].lenKb == FILL && i + 1 < |parts|)
    ensures Turns(conf, parts, n).Done? ==>
              var st := Turns(conf, parts, n).state;
              (st.extended <==> |parts| > SLOTS && n >= SLOTS) && forall i :: n <= i < |parts| ==> st.parts[i] == parts[i]
  {
    hide Primary, Logical, Extended, LenFor;
    if n > 0 {
      UncheckedSucceeds(conf, parts, n - 1);
    }
  }

  /** The link behind partition i: to the next boot record, over that record and its partition. */
  function WantedLink(conf: Conf, parts: seq<Part>, i: nat): (s: seq<byte>)
    requires conf.sect > 0 && i < |parts|
    ensures |s| == 16
  {
    if i + 1 == |parts| then Zeros(16)
    else PEntry(NORMAL, TYPE_EXTENDED, U32(Cur(conf, parts, i + 1) - ExtendedAt(conf, parts)),
                U32(1 + Len(conf, parts, i + 1)))
  }

  /** The first sector of the extended partition. */
  function ExtendedAt(conf: Conf, parts: seq<Part>): int
    requires conf.sect > 0
  {
    if |parts| > SLOTS then Cur(conf, parts, SLOTS - 1) else 0
  }

  function Wanted(conf: Conf, parts: seq<Part>, i: nat): Write
    requires conf.sect > 0 && i < |parts|
  {
    var p, at, len := parts[i], U32(Cur(conf, parts, i)), U32(Len(conf, parts, i));
    if Chained(parts, i) then
      Write(Offset(at, conf.sect), Record(PEntry(NORMAL, p.ptype, 1, len), WantedLink(conf, parts, i)))
    else SlotWrite(i, PEntry(Status(p), p.ptype, at, len))
  }

  /** The writes for the first n partitions, newest first. */
  function AllWanted(conf: Conf, parts: seq<Part>, n: nat): seq<Write>
    requires conf.sect > 0 && n <= |parts|
  {
    if n == 0 then []
    else
      [Wanted(conf, parts, n - 1)]
      + ((if n == SLOTS && |parts| > SLOTS then [Extended(conf, SLOTS - 1, U32(Cur(conf, parts, n - 1)))] else [])
         + AllWanted(conf, parts, n - 1))
  }

  function Recorded(conf: Conf, parts: seq<Part>, i: nat): Part
    requires conf.sect > 0 && i < |parts|
  {
    var p := parts[i].(startLba := U32(Start(conf, parts, i)));
    if Chained(parts, i) && p.lenKb == FILL then p.(lenKb := LbaToKb(U32(Len(conf, parts, i)), conf.sect)) else p
  }

  /** The loop's state in front of partition i is the one the positions call for. */
  predicate Reached(conf: Conf, parts: seq<Part>, i: nat, st: State)
    requires conf.sect > 0 && i <= |parts|
  {
    && st.cur == Cur(conf, parts, i) && (i > 0 ==> st.cur + 1 < LIMIT)
    && (st.extended <==> |parts| > SLOTS && i >= SLOTS)
    && (st.extended ==> st.ext == ExtendedAt(conf, parts) <= st.cur)
    && |st.parts| == |parts|
    && (forall j :: 0 <= j < i ==> st.parts[j] == Recorded(conf, parts, j))
    && (forall j :: i <= j < |parts| ==> st.parts[j] == parts[j])
    && st.writes == AllWanted(conf, parts, i)
  }

  /** The check in 32 bits is the check without wrapping. */
  lemma CheckIs(conf: Conf, p: Part, cur: uint32, extended: bool)
    requires conf.sect > 0 && (cur + 1 < LIMIT || !extended)
    requires var start := cur + if extended then 1 else 0;
      conf.num > 0 && (p.lenKb != FILL && start < conf.num ==> start + Sectors(p.lenKb, conf.sect) < LIMIT)
    ensures var start := cur + if extended then 1 else 0;
      NoSpace(conf, p, cur, extended) <==>
      !(start < conf.num && (p.lenKb != FILL ==> start + Estimate(p.lenKb, conf.sect) <= conf.num))
  {
    if p.lenKb != FILL && cur < conf.num {
      EstimateIsExact(p.lenKb, conf.sect);
      CheckSums(conf.num, cur, Estimate(p.lenKb, conf.sect), Sectors(p.lenKb, conf.sect), if extended then 1 else 0);
      assert Mul32(p.lenKb / conf.sect, 1024) == Estimate(p.lenKb, conf.sect) % LIMIT;
    }
  }

  lemma CheckSums(num: uint32, cur: uint32, est: nat, len: nat, e: uint32)
    requires e <= 1 && est <= len && cur + e < LIMIT && (cur + e < num ==> cur + e + len < LIMIT)
    ensures Add32(cur, e) == cur + e
    ensures cur + e < num ==> est < LIMIT && Add32(Add32(cur, est), e) == cur + est + e
  {
  }

  /** Lengths and links in 32 bits are the ones wanted, for a partition that starts on the disk. */
  lemma LengthAgrees(conf: Conf, parts: seq<Part>, i: nat)
    requires Unwrapped(conf, parts) && i < |parts| && 0 <= Start(conf, parts, i) < conf.num
    ensures LenFor(conf, parts[i], Start(conf, parts, i)) == Len(conf, parts, i)
  {
    hide Sectors, Cur;
    assert Unwraps(conf, parts, i);
  }

  lemma LinksAgree(conf: Conf, parts: seq<Part>, st: State, i: nat, next: uint32)
    requires Unwrapped(conf, parts) && i < |parts| && Opened(conf, parts, i, st) && Chained(parts, i)
    requires next == Cur(conf, parts, i + 1)
    ensures Link(conf, FollowOf(parts, i), next, ExtendedAt(conf, parts)) == WantedLink(conf, parts, i)
  {
    hide PEntry, Sectors, Cur;
    if i + 1 < |parts| {
      assert Unwraps(conf, parts, i + 1);
    }
  }

  /** The state in which partition i is placed: the extended partition is open if it has to be. */
  predicate Opened(conf: Conf, parts: seq<Part>, i: nat, st: State)
    requires conf.sect > 0 && i < |parts|
  {
    && st.cur == Cur(conf, parts, i) && |st.parts| == |parts|
    && (st.extended <==> Chained(parts, i))
    && (st.extended ==> st.ext == ExtendedAt(conf, parts) <= st.cur && st.cur + 1 < LIMIT)
    && (forall j :: 0 <= j < i ==> st.parts[j] == Recorded(conf, parts, j))
    && (forall j :: i <= j < |parts| ==> st.parts[j] == parts[j])
    && [Wanted(conf, parts, i)] + st.writes == AllWanted(conf, parts, i + 1)
  }

  lemma OpensRight(conf: Conf, parts: seq<Part>, i: nat, st: State)
    requires Unwrapped(conf, parts) && i < |parts| && Reached(conf, parts, i, st)
    ensures Opened(conf, parts, i, OpenExtended(conf, st, i))
  {
    hide Cur, Recorded, Wanted, Extended;
  }

  /** A partition that starts on the disk is placed where it is wanted. */
  lemma PlacesPrimary(conf: Conf, parts: seq<Part>, i: nat, st: State)
    requires Unwrapped(conf, parts) && i < |parts| && Opened(conf, parts, i, st) && Start(conf, parts, i) < conf.num
    requires !Chained(parts, i)
    ensures Primary(conf, parts[i], i, st.cur)
            == Placement(Wanted(conf, parts, i), Recorded(conf, parts, i), U32(Cur(conf, parts, i + 1)))
  {
    hide SlotWrite, PEntry, Sectors, LenFor, LenAt, Cur, AllWanted, Unwraps;
    LengthAgrees(conf, parts, i);
    EndsBelow(conf, parts, i);
  }

  lemma PlacesLogical(conf: Conf, parts: seq<Part>, i: nat, st: State)
    requires Unwrapped(conf, parts) && i < |parts| && Opened(conf, parts, i, st) && Start(conf, parts, i) < conf.num
    requires Chained(parts, i)
    ensures Logical(conf, parts[i], FollowOf(parts, i), st.cur, st.ext)
            == Placement(Wanted(conf, parts, i), Recorded(conf, parts, i), U32(Cur(conf, parts, i + 1)))
  {
    hide PEntry, Record, Sectors, Offset, Link, WantedLink, LenFor, LenAt, Cur, AllWanted, Unwraps;
    LengthAgrees(conf, parts, i);
    EndsBelow(conf, parts, i);
    LinksAgree(conf, parts, st, i, Cur(conf, parts, i + 1));
  }

  /** A partition that starts on the disk ends below 2^32. */
  lemma EndsBelow(conf: Conf, parts: seq<Part>, i: nat)
    requires Unwrapped(conf, parts) && i < |parts| && Start(conf, parts, i) < conf.num
    ensures Cur(conf, parts, i + 1) == Start(conf, parts, i) + Len(conf, parts, i) && Len(conf, parts, i) >= 0
    ensures Cur(conf, parts, i + 1) + 1 < LIMIT
  {
    hide Sectors;
    assert Unwraps(conf, parts, i);
  }

  lemma PutsRight(conf: Conf, parts: seq<Part>, i: nat, st: State, pl: Placement)
    requires conf.sect > 0 && i < |parts| && Opened(conf, parts, i, st)
    requires pl.next == Cur(conf, parts, i + 1) && pl.next + 1 < LIMIT
    requires pl.write == Wanted(conf, parts, i) && pl.part == Recorded(conf, parts, i)
    requires Chained(parts, i) ==> ExtendedAt(conf, parts) <= pl.next
    ensures Reached(conf, parts, i + 1, Put(st, i, pl))
  {
    hide Cur, Recorded, Wanted, AllWanted, ExtendedAt;
  }

  /** One turn of the loop places partition i, or finds that it cannot be placed. */
  lemma TurnPlaces(conf: Conf, parts: seq<Part>, i: nat, st: State)
    requires Unwrapped(conf, parts) && i < |parts| && Reached(conf, parts, i, st)
    ensures Turn(conf, st, i).Done? <==> Accepts(conf, parts, i)
    ensures Turn(conf, st, i).Done? ==> Reached(conf, parts, i + 1, Turn(conf, st, i).state)
  {
    hide Recorded, Wanted, AllWanted, Primary, Logical, NoSpace, Put, Sectors, Estimate, LenAt;
    var st' := OpenExtended(conf, st, i);
    OpensRight(conf, parts, i, st);
    var p := st'.parts[i];
    assert p == parts[i] && Unwraps(conf, parts, i) && st'.cur == Cur(conf, parts, i);
    assert FollowOf(st'.parts, i) == FollowOf(parts, i);
    CheckIs(conf, p, st'.cur, st'.extended);
    if Accepts(conf, parts, i) {
      EndsBelow(conf, parts, i);
      if Chained(parts, i) {
        PlacesLogical(conf, parts, i, st');
        PutsRight(conf, parts, i, st', Logical(conf, p, FollowOf(parts, i), st'.cur, st'.ext));
      } else {
        PlacesPrimary(conf, parts, i, st');
        PutsRight(conf, parts, i, st', Primary(conf, p, i, st'.cur));
      }
    }
  }

  lemma {:induction false} TurnsPlace(conf: Conf, parts: seq<Part>, n: nat)
    requires Unwrapped(conf, parts) && n <= |parts|
    ensures Turns(conf, parts, n).Done? <==> forall i :: 0 <= i < n ==> Accepts(conf, parts, i)
    ensures Turns(conf, parts, n).Done? ==> Reached(conf, parts, n, Turns(conf, parts, n).state)
  {
    hide Turn, Accepts, Wanted, Recorded;
    if n > 0 {
      TurnsPlace(conf, parts, n - 1);
      if Turns(conf, parts, n - 1).Done? {
        TurnPlaces(conf, parts, n - 1, Turns(conf, parts, n - 1).state);
      }
    }
  }

  /** A table comes out exactly when every partition is accepted. */
  lemma SucceedsExactly(conf: Conf, parts: seq<Part>)
    requires Unwrapped(conf, parts)
    ensures Config(conf, parts).Done? <==> AllAccepted(conf, parts)
    ensures Config(conf, parts).Done? ==> Config(conf, parts).state.cur == Cur(conf, parts, |parts|)
  {
    hide Turns, Accepts, Cur;
    TurnsPlace(conf, parts, |parts|);
  }

  /** Of the partitions of a table that comes out all but the last end on the disk; so all do exactly if
      the first sector left is not beyond its end. */
  lemma OnlyLastOverruns(conf: Conf, parts: seq<Part>)
    requires Unwrapped(conf, parts) && parts != [] && AllAccepted(conf, parts)
    ensures forall i :: 0 <= i < |parts| - 1 ==> Fits(conf, parts, i)
    ensures AllFit(conf, parts) <==> Cur(conf, parts, |parts|) <= conf.num
  {
    hide Cur;
    forall i | 0 <= i < |parts| - 1 ensures Fits(conf, parts, i) {
      assert Accepts(conf, parts, i) && Accepts(conf, parts, i + 1);
    }
    assert Accepts(conf, parts, |parts| - 1);
    assert AllFit(conf, parts) ==> Fits(conf, parts, |parts| - 1);
  }

  /** What fits is accepted. */
  lemma FittingIsAccepted(conf: Conf, parts: seq<Part>)
    requires conf.sect > 0 && AllFit(conf, parts)
    ensures AllAccepted(conf, parts)
  {
    forall i | 0 <= i < |parts| ensures Accepts(conf, parts, i) {
      hide Cur;
      assert Fits(conf, parts, i) && (i + 1 < |parts| ==> Fits(conf, parts, i + 1));
      CurAfter(conf, parts, i);
      if parts[i].lenKb != FILL {
        EstimateIsExact(parts[i].lenKb, conf.sect);
      }
    }
  }

  lemma CurAfter(conf: Conf, parts: seq<Part>, i: nat)
    requires conf.sect > 0 && i < |parts|
    ensures Cur(conf, parts, 0) == conf.skip
    ensures Cur(conf, parts, i + 1) == Start(conf, parts, i) + Len(conf, parts, i)
  {
    hide Sectors;
  }

  /** For lengths of any kind: a table comes out and its last partition ends on the disk if and only if
      every partition, with its boot record, ends there. */
  lemma FitsExactly(conf: Conf, parts: seq<Part>)
    requires Unwrapped(conf, parts) && parts != []
    ensures Config(conf, parts).Done? && Config(conf, parts).state.cur <= conf.num <==> AllFit(conf, parts)
  {
    hide Config, Cur, Accepts, Fits;
    SucceedsExactly(conf, parts);
    if Config(conf, parts).Done? {
      OnlyLastOverruns(conf, parts);
    }
    if AllFit(conf, parts) {
      FittingIsAccepted(conf, parts);
      OnlyLastOverruns(conf, parts);
    }
  }

  /** If the last partition fills the disk, or takes at most one sector, or its length is a multiple of
      the sector size, coming out is enough. */
  lemma SafeAtEnd(conf: Conf, parts: seq<Part>)
    requires Unwrapped(conf, parts) && parts != []
    requires var p := parts[|parts| - 1];
      p.lenKb == FILL || p.lenKb % conf.sect == 0 || Sectors(p.lenKb, conf.sect) <= 1
    ensures Config(conf, parts).Done? <==> AllFit(conf, parts)
  {
    hide Config, Cur, Sectors, Estimate;
    var last := |parts| - 1;
    SucceedsExactly(conf, parts);
    FitsExactly(conf, parts);
    if Config(conf, parts).Done? {
      assert Accepts(conf, parts, last);
      CurAfter(conf, parts, last);
      if parts[last].lenKb != FILL {
        EstimateIsExact(parts[last].lenKb, conf.sect);
      }
    }
  }

  /** What fills the disk leaves no room. */
  lemma FillIsLast(conf: Conf, parts: seq<Part>, i: nat)
    requires conf.sect > 0 && i < |parts| && AllAccepted(conf, parts)
    ensures parts[i].lenKb == FILL ==> i + 1 == |parts| && Cur(conf, parts, i + 1) == conf.num
  {
    hide Sectors;
    CurAfter(conf, parts, i);
    assert i + 1 < |parts| ==> Accepts(conf, parts, i + 1);
  }

  lemma {:induction false} CursAscend(conf: Conf, parts: seq<Part>, i: nat, j: nat)
    requires conf.sect > 0 && i <= j <= |parts| && AllAccepted(conf, parts)
    ensures Cur(conf, parts, i) <= Cur(conf, parts, j)
    decreases j
  {
    hide Sectors, Estimate;
    if i < j {
      CursAscend(conf, parts, i, j - 1);
      assert Accepts(conf, parts, j - 1);
      CurAfter(conf, parts, j - 1);
    }
  }

  /** Partition i of a table that came out: recorded where it starts, which is on the disk; as long as
      was asked for; its boot record and itself behind every earlier partition, which end on the disk;
      and if it fills the disk the last one, with the disk's end for its own. */
  predicate InOrder(conf: Conf, parts: seq<Part>, i: nat)
    requires conf.sect > 0 && i < |parts| && Config(conf, parts).Done?
  {
    var rec, boot, len := Config(conf, parts).state.parts, Overhead(parts, i), Len(conf, parts, i);
    && |rec| == |parts| && rec[i] == Recorded(conf, parts, i) && rec[i].startLba == Start(conf, parts, i)
    && conf.skip <= rec[i].startLba - boot && len >= 0 && rec[i].startLba < conf.num
    && (forall j :: 0 <= j < i ==>
          rec[j].startLba == Start(conf, parts, j) && rec[j].startLba + Len(conf, parts, j) <= rec[i].startLba - boot)
    && (if parts[i].lenKb == FILL then i + 1 == |parts| && rec[i].startLba + len == conf.num
        else 1024 * parts[i].lenKb <= len * conf.sect < 1024 * parts[i].lenKb + conf.sect)
  }

  lemma LayoutInOrder(conf: Conf, parts: seq<Part>, i: nat)
    requires Unwrapped(conf, parts) && Config(conf, parts).Done? && i < |parts|
    ensures InOrder(conf, parts, i)
  {
    hide Turns, Blanks, Sectors, Cur, AllWanted, Unwraps, Estimate;
    SucceedsExactly(conf, parts);
    TurnsPlace(conf, parts, |parts|);
    FillIsLast(conf, parts, i);
    CursAscend(conf, parts, 0, i);
    assert Accepts(conf, parts, i);
    CurAfter(conf, parts, i);
    forall j | 0 <= j < i ensures Start(conf, parts, j) + Len(conf, parts, j) <= Cur(conf, parts, i) {
      CurAfter(conf, parts, j);
      CursAscend(conf, parts, j + 1, i);
    }
    forall j | 0 <= j <= i ensures 0 <= Start(conf, parts, j) < LIMIT {
      CursAscend(conf, parts, 0, j);
      assert Accepts(conf, parts, j);
    }
    LengthsArePositive(conf, parts[i], Start(conf, parts, i));
    SectorsAreTight(parts[i].lenKb, conf.sect);
  }

  lemma LengthsArePositive(conf: Conf, p: Part, start: int)
    requires conf.sect > 0 && start <= conf.num
    ensures LenAt(conf, p, start) >= 0
  {
    hide Sectors;
  }

  /** The layout, for lengths of any kind: partitions in ascending disjoint ranges that all end on the
      disk come out if and only if there is room for them; and a table that comes out without room for
      its last partition has all the others in bounds. */
  lemma LayoutInBounds(conf: Conf, parts: seq<Part>)
    requires Unwrapped(conf, parts) && parts != []
    ensures Config(conf, parts).Done? ==>
              && (forall i :: 0 <= i < |parts| ==> InOrder(conf, parts, i))
              && (forall i :: 0 <= i < |parts| - 1 ==> Start(conf, parts, i) + Len(conf, parts, i) <= conf.num)
    ensures Config(conf, parts).Done? && (forall i :: 0 <= i < |parts| ==> Start(conf, parts, i) + Len(conf, parts, i) <= conf.num)
            <==> AllFit(conf, parts)
  {
    hide Config, InOrder, Cur, Accepts, Len;
    SucceedsExactly(conf, parts);
    FitsExactly(conf, parts);
    if Config(conf, parts).Done? {
      OnlyLastOverruns(conf, parts);
      forall i | 0 <= i < |parts| ensures InOrder(conf, parts, i) {
        LayoutInOrder(conf, parts, i);
      }
    }
    forall i | 0 <= i < |parts| ensures Cur(conf, parts, i + 1) == Start(conf, parts, i) + Len(conf, parts, i) {
      CurAfter(conf, parts, i);
    }
    if Config(conf, parts).Done? {
      forall i | 0 <= i < |parts| - 1 ensures Start(conf, parts, i) + Len(conf, parts, i) <= conf.num {
        assert Fits(conf, parts, i);
      }
    }
    assert AllFit(conf, parts) ==> forall i :: 0 <= i < |parts| ==> Fits(conf, parts, i);
    assert Cur(conf, parts, |parts|) == Start(conf, parts, |parts| - 1) + Len(conf, parts, |parts| - 1);
  }

  /** Rounded up: enough, and by less than a sector too much. */
  lemma SectorsAreTight(lenKb: uint32, sect: uint32)
    requires sect > 0
    ensures 1024 * lenKb <= Sectors(lenKb, sect) * sect < 1024 * lenKb + sect
  {
    var q, r := Sectors(lenKb, sect), (lenKb * 1024 + (sect - 1)) % sect;
    assert lenKb * 1024 + (sect - 1) == sect * q + r;
    assert sect * q == q * sect;
  }
}
