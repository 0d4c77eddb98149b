/** The whole tool: the configuration is laid out once to check it and once more to write it, on the
    same records. */
module MbrEdit {
  import opened Arithmetic
  import opened Bytes
  import opened MbrConfig
  import opened MbrLayout
  import opened MbrCommit
  import opened MbrTool
  import opened Storage

  /** The last partition is logical and takes the rest of the disk. */
  predicate FillsChain(parts: seq<Part>) {
    |parts| > SLOTS && parts[|parts| - 1].lenKb == FILL
  }

  /** The sectors that the recorded whole number of KiB leaves out. */
  function Lost(conf: Conf, parts: seq<Part>): (n: nat)
    requires conf.sect > 0
  {
    if !FillsChain(parts) then 0
    else
      var rest := Offset(U32(Len(conf, parts, |parts| - 1)), conf.sect) % 1024;
      DivBound(rest, conf.sect);
      rest / conf.sect
  }

  /** KiB rounded down from sectors, and back: short by the whole sectors in the part rounded off. */
  lemma RoundingLoses(len: uint32, sect: uint32)
    requires sect > 0 && Offset(len, sect) / 1024 < LIMIT
    ensures Offset(len, sect) % 1024 / sect <= len
    ensures Sectors(LbaToKb(len, sect), sect) == len - Offset(len, sect) % 1024 / sect
  {
    var kb, r := Offset(len, sect) / 1024, Offset(len, sect) % 1024;
    var l, m := r / sect, r % sect;
    LossSplits(len, sect, kb, r, l, m);
    DivModUnique(kb * 1024 + (sect - 1), sect, len - l, sect - 1 - m);
    MulCancel(l, len + 1, sect);
  }

  lemma LossSplits(len: nat, sect: nat, kb: nat, r: nat, l: int, m: int)
    requires len * sect == kb * 1024 + r && r == sect * l + m && 0 <= m < sect
    ensures kb * 1024 + (sect - 1) == sect * (len - l) + (sect - 1 - m)
    ensures l * sect < (len + 1) * sect
  {
    assert sect * (len - l) == len * sect - sect * l;
    assert l * sect == sect * l;
    assert (len + 1) * sect == len * sect + sect;
  }

  /** Positions depend on the lengths in front only. */
  lemma {:induction false} CursAgree(conf: Conf, parts: seq<Part>, parts': seq<Part>, n: nat)
    requires conf.sect > 0 && |parts'| == |parts| && n <= |parts|
    requires forall j :: 0 <= j < n ==> parts'[j].lenKb == parts[j].lenKb
    ensures Cur(conf, parts', n) == Cur(conf, parts, n)
  {
    hide Sectors;
    if n > 0 {
      CursAgree(conf, parts, parts', n - 1);
    }
  }

  lemma AcceptanceAgrees(conf: Conf, parts: seq<Part>, parts': seq<Part>, i: nat)
    requires conf.sect > 0 && |parts'| == |parts| && i < |parts|
    requires forall j :: 0 <= j <= i ==> parts'[j].lenKb == parts[j].lenKb
    ensures Start(conf, parts', i) == Start(conf, parts, i) && Len(conf, parts', i) == Len(conf, parts, i)
    ensures Unwraps(conf, parts', i) == Unwraps(conf, parts, i) && Accepts(conf, parts', i) == Accepts(conf, parts, i)
  {
    hide Sectors, Cur, Estimate;
    CursAgree(conf, parts, parts', i);
  }

  /** The lengths the first run records: as configured, but for a logical partition that fills the disk. */
  lemma RecordedLengths(conf: Conf, parts: seq<Part>)
    requires Unwrapped(conf, parts) && Config(conf, parts).Done?
    ensures var parts' := Config(conf, parts).state.parts;
            && |parts'| == |parts|
            && (forall i :: 0 <= i < |parts| && !(FillsChain(parts) && i + 1 == |parts|) ==>
                  parts'[i].lenKb == parts[i].lenKb)
            && (FillsChain(parts) ==>
                  parts'[|parts| - 1].lenKb == LbaToKb(U32(Len(conf, parts, |parts| - 1)), conf.sect))
  {
    hide Cur, Len, Turns, LbaToKb;
    forall i | 0 <= i < |parts|
      ensures Config(conf, parts).state.parts[i] == Recorded(conf, parts, i)
              && (parts[i].lenKb == FILL ==> i + 1 == |parts|)
    {
      LayoutInOrder(conf, parts, i);
    }
  }

  /** The length of the last partition in the second run. A length in KiB that comes out as the mark for
      "the rest of the disk" is taken for it again. */
  function SecondLen(conf: Conf, parts: seq<Part>): int
    requires conf.sect > 0 && parts != []
  {
    var len := Len(conf, parts, |parts| - 1);
    var kb := LbaToKb(U32(len), conf.sect);
    if FillsChain(parts) && kb != FILL then Sectors(kb, conf.sect) else len
  }

  /** It is never longer; and where the length in KiB has room in 32 bits, it is shorter by exactly the
      sectors that this length cannot express. */
  lemma SecondLenIs(conf: Conf, parts: seq<Part>)
    requires conf.sect > 0 && parts != [] && 0 <= Len(conf, parts, |parts| - 1) < LIMIT
    ensures SecondLen(conf, parts) <= Len(conf, parts, |parts| - 1)
    ensures (FillsChain(parts) ==> Offset(U32(Len(conf, parts, |parts| - 1)), conf.sect) / 1024 < FILL) ==>
              SecondLen(conf, parts) == Len(conf, parts, |parts| - 1) - Lost(conf, parts)
  {
    hide Len, Sectors, Offset, LbaToKb;
    var len := U32(Len(conf, parts, |parts| - 1));
    KbIsLess(len, conf.sect);
    if Offset(len, conf.sect) / 1024 < FILL {
      RoundingLoses(len, conf.sect);
      KbIsNotFill(len, conf.sect);
    }
  }

  lemma KbIsLess(len: uint32, sect: uint32)
    requires sect > 0
    ensures Sectors(LbaToKb(len, sect), sect) <= len
  {
    var kb, all := LbaToKb(len, sect), Offset(len, sect) / 1024;
    assert kb <= all && kb * 1024 <= Offset(len, sect);
    SectorsAreTight(kb, sect);
    hide Sectors, LbaToKb;
    assert (len + 1) * sect == len * sect + sect;
    MulCancel(Sectors(kb, sect), len + 1, sect);
  }

  /** The second run places every partition where the first one did, with the length it had; only a
      logical partition that fills the disk comes out with the length its recorded KiB make. */
  lemma SecondRun(conf: Conf, parts: seq<Part>)
    requires Unwrapped(conf, parts) && Config(conf, parts).Done? && parts != []
    ensures var parts' := Config(conf, parts).state.parts;
            && |parts'| == |parts| && Unwrapped(conf, parts') && Config(conf, parts').Done?
            && (forall i :: 0 <= i < |parts| ==> Start(conf, parts', i) == Start(conf, parts, i))
            && (forall i :: 0 <= i < |parts| - 1 ==> Len(conf, parts', i) == Len(conf, parts, i))
            && Len(conf, parts', |parts| - 1) == SecondLen(conf, parts)
  {
    hide Cur, Sectors, LbaToKb, Config, Unwraps, Accepts, Len, SecondLen;
    var parts', last := Config(conf, parts).state.parts, |parts| - 1;
    RecordedLengths(conf, parts);
    SucceedsExactly(conf, parts);
    forall i | 0 <= i < |parts|
      ensures Start(conf, parts', i) == Start(conf, parts, i) && Unwraps(conf, parts', i) && Accepts(conf, parts', i)
      ensures Len(conf, parts', i) == if i == last then SecondLen(conf, parts) else Len(conf, parts, i)
    {
      assert Unwraps(conf, parts, i) && Accepts(conf, parts, i);
      if FillsChain(parts) && i == last {
        CursFit(conf, parts, last);
        CursAgree(conf, parts, parts', last);
        ShorterFits(conf, parts, parts');
      } else {
        AcceptanceAgrees(conf, parts, parts', i);
        NotFilling(conf, parts);
      }
    }
    SucceedsExactly(conf, parts');
  }

  lemma NotFilling(conf: Conf, parts: seq<Part>)
    requires conf.sect > 0 && parts != []
    ensures !FillsChain(parts) ==> SecondLen(conf, parts) == Len(conf, parts, |parts| - 1)
  {
  }

  function SampleParts(): (ps: seq<Part>)
    ensures |ps| == 5
  {
    var p := Part("part", false, 0x83, 512, 0);
    [p, p, p, p, p.(name := "rest", lenKb := FILL)]
  }

  /** It does come out shorter: five partitions on 5100 sectors of 512 bytes. The last one takes 1001
      sectors at first and 1000 in the end. */
  lemma SecondRunCanShorten()
    ensures var conf, parts := Conf(512, 1, 5100), SampleParts();
            && Unwrapped(conf, parts) && AllFit(conf, parts) && Config(conf, parts).Done?
            && Len(conf, parts, 4) == 1001 && Start(conf, parts, 4) == 4099 && Lost(conf, parts) == 1
            && (var parts' := Config(conf, parts).state.parts;
                |parts'| == 5 && Start(conf, parts', 4) == 4099 && Len(conf, parts', 4) == 1000)
  {
    hide Turns, Blanks, NoSpace;
    var conf, parts := Conf(512, 1, 5100), SampleParts();
    assert Sectors(512, 512) == 1024;
    SmallIsUnwrapped(conf, parts);
    hide Sectors;
    assert Cur(conf, parts, 1) == 1025;
    assert Cur(conf, parts, 2) == 2049;
    assert Cur(conf, parts, 3) == 3073;
    assert Cur(conf, parts, 4) == 4098;
    assert Cur(conf, parts, 5) == 5100;
    FitsExactly(conf, parts);
    SecondRun(conf, parts);
    SecondLenIs(conf, parts);
  }

  /** The last partition, once its length is a number. */
  lemma ShorterFits(conf: Conf, parts: seq<Part>, parts': seq<Part>)
    requires Unwrapped(conf, parts) && FillsChain(parts) && |parts'| == |parts|
    requires 0 <= Start(conf, parts, |parts| - 1) < conf.num
    requires Cur(conf, parts', |parts| - 1) == Cur(conf, parts, |parts| - 1)
    requires parts'[|parts| - 1].lenKb == LbaToKb(U32(Len(conf, parts, |parts| - 1)), conf.sect)
    ensures var last := |parts| - 1;
            && Start(conf, parts', last) == Start(conf, parts, last) && Len(conf, parts', last) == SecondLen(conf, parts)
            && Unwraps(conf, parts', last) && Accepts(conf, parts', last)
  {
    hide Cur, Sectors, LbaToKb, Estimate;
    var last := |parts| - 1;
    var p := parts'[last];
    KbIsLess(Len(conf, parts, last), conf.sect);
    EstimateIsExact(p.lenKb, conf.sect);
  }

  lemma KbIsNotFill(len: uint32, sect: uint32)
    requires Offset(len, sect) / 1024 < FILL
    ensures LbaToKb(len, sect) != FILL
  {
    hide Offset;
  }

  /** The second run's table is ready for the disk. */
  lemma SecondIsReady(conf: Conf, parts: seq<Part>, disk: seq<byte>)
    requires Ready(conf, parts, disk)
    ensures Ready(conf, Config(conf, parts).state.parts, disk)
  {
    hide Config, Unwraps, Len;
    RecordedLengths(conf, parts);
    if parts != [] {
      SecondRun(conf, parts);
    } else {
      assert Config(conf, parts).state.parts == parts;
    }
  }

  /** Check the configuration, lay it out again, and commit what the second run lists. */
  method EditDisk(dinfo: DiskInfo, disk: Disk) returns (ok: bool)
    requires dinfo.Distinct() && Unwrapped(dinfo.conf, dinfo.Views())
    requires dinfo.conf.sect >= RECORD_BYTES && dinfo.conf.skip >= 1
    requires disk.data.Length >= Offset(dinfo.conf.num, dinfo.conf.sect)
    modifies dinfo.parts, disk`log, disk.data
    ensures ok <==> AllAccepted(dinfo.conf, old(dinfo.Views()))
    ensures !ok ==> disk.Contents() == old(disk.Contents())
    ensures ok ==>
              && Config(dinfo.conf, old(dinfo.Views())).Done?
              && var parts' := Config(dinfo.conf, old(dinfo.Views())).state.parts;
              && Ready(dinfo.conf, parts', old(disk.Contents()))
              && dinfo.Views() == Config(dinfo.conf, parts').state.parts
              && disk.Contents() == Final(dinfo.conf, parts', old(disk.Contents()))
  {
    hide Config, Unwrapped, Len, Offset, WriteNode.Valid, DiskInfo.ViewsOf, Turns, Commit, Fit, Splice, AllAccepted;
    var conf, parts, bytes := dinfo.conf, dinfo.Views(), disk.Contents();
    SucceedsExactly(conf, parts);
    var lst := ConfigMbr(dinfo);
    if lst == null {
      return false;
    }
    SecondIsReady(conf, parts, bytes);
    ghost var parts' := dinfo.Views();
    lst := ConfigMbr(dinfo);
    CommitIsWanted(conf, parts', bytes);
    WlistCommit(disk, lst);
    ok := true;
  }
}
