/** The BIOS parameter block and the steps that fill it in, in the machine's arithmetic. Each step is
    proved to compute what FatLayout and FatPlan say over unbounded integers: no sum wraps, and
    no difference of the sizing goes below zero. */
module FatFormat {
  import opened Arithmetic
  import opened Bytes
  import opened FatLayout
  import opened FatImage
  import opened FatGiven
  import opened FatPlan
  import opened FatWriter
  import opened Storage

  /** The boot sector comes alone: no bootstrap file is given. */
  const BOOT_SECTORS: uint32 := 1

  function HowMany32(x: uint32, y: uint32): uint32
    requires y > 0
  {
    Add32(x, Sub32(y, 1)) / y
  }

  lemma HowMany32Exact(x: uint32, y: uint32)
    requires y > 0 && x + y <= 0x1_0000_0000
    ensures HowMany32(x, y) == HowMany(x, y)
  {
  }

  /** Sectors of nft FATs for cls clusters. */
  function FatSectors32(cls: uint32, nibbles: uint32, bps: uint32, nft: uint32): uint32
    requires 0 < bps <= 32768
  {
    Mul32(HowMany32(Mul32(Add32(RESFTE, cls), nibbles), Mul32(bps, 2)), nft)
  }

  lemma FatSectors32Exact(cls: nat, nibbles: nat, bps: nat, nft: nat)
    requires SectorSize(bps) && cls <= MaxCls(32) && nibbles <= 8 && nft <= MAXNFT
    ensures Mul32(bps, 2) == bps * 2
    ensures HowMany32(Mul32(Add32(RESFTE, cls), nibbles), Mul32(bps, 2)) == HowMany((RESFTE + cls) * nibbles, bps * 2) <= 0x20_0000
    ensures FatSectors32(cls, nibbles, bps, nft) == HowMany((RESFTE + cls) * nibbles, bps * 2) * nft <= 0x200_0000
  {
    MulBounds(RESFTE + cls, nibbles, RESFTE + MaxCls(32), 8);
    HowMany32Exact((RESFTE + cls) * nibbles, bps * 2);
    HowManyLeast((RESFTE + cls) * nibbles, bps * 2, 0x20_0000);
    MulBounds(HowMany((RESFTE + cls) * nibbles, bps * 2), nft, 0x20_0000, MAXNFT);
  }

  lemma LargestFat16Exact(bps: nat, nft: nat)
    requires SectorSize(bps) && nft <= MAXNFT
    ensures Mul32(HowMany32(Mul32(Add32(RESFTE, MaxCls(16)), 2), bps), nft) == HowMany(131054, bps) * nft <= 0x1000
  {
    HowMany32Exact(131054, bps);
    HowManyLeast(131054, bps, 256);
    MulBounds(HowMany(131054, bps), nft, 256, MAXNFT);
  }

  function DataSectors64(m: uint32, spc: uint32): (r: uint64)
    requires m <= 0x1000_0000 && spc <= 256
    ensures r == m * spc
  {
    MulBounds(m, spc, 0x1000_0000, 256);
    U64(m * spc)
  }

  lemma Block32Exact(blk: nat, bps: nat)
    requires SectorSize(bps) && blk <= 8192
    ensures HowMany32(blk, bps) == HowMany(blk, bps) <= 16
  {
    HowMany32Exact(blk, bps);
    HowManyLeast(blk, bps, 16);
  }

  lemma Root32Exact(rde: nat, bps: nat)
    requires SectorSize(bps) && rde <= MAXU16
    ensures HowMany32(rde, bps / DIR_ENTRY) == RootSectors(rde, bps) <= 4096
  {
    HowMany32Exact(rde, bps / DIR_ENTRY);
    RootSectorsBound(rde, bps);
  }

  lemma Data32Exact(cls: nat, spc: nat)
    requires cls <= 0x1_0000 && spc <= 128
    ensures Mul32(cls, spc) == cls * spc <= 0x80_0000
  {
    MulBounds(cls, spc, 0x1_0000, 128);
  }

  /** The numbers of a plan have room in the block. */
  predicate Blockable(q: Request, v: Given, r: Outcome) {
    && q.Valid() && r.Planned? && r.sizing.Sized?
    && 1 <= r.sizing.spf < 0x1_0000_0000 && 0 < r.sizing.bsec <= q.bsec
    && 1 <= r.res <= MAXU16 && ClusterSize(r.spc) && RootEntries(q, r.fat) <= MAXU16
    && (r.fat != 32 ==> r.sizing.spf <= MAXU16)
    && (var places := PlacesFor(r.fat, v);
        && places.Places? && places.infs <= MAXU16 && places.bkbs <= MAXU16
        && (r.fat == 32 && places.infs != MAXU16 ==> places.infs < r.res)
        && (r.fat == 32 && places.bkbs != MAXU16 ==> places.bkbs < r.res))
  }

  /** The settled block of a successful plan. */
  function PlannedParams(q: Request, v: Given, r: Outcome, hid: uint32, mid: uint32, spt: uint32, hds: uint32): BootParams
    requires Blockable(q, v, r)
  {
    var total, spf, places := r.sizing.bsec, r.sizing.spf, PlacesFor(r.fat, v);
    var short := Add32(hid, total) <= MAXU16;
    BootParams(r.fat, q.bps, r.spc, r.res, q.nft, RootEntries(q, r.fat), if short then total else 0,
               if mid != 0 then mid else if hid == 0 then 0xf0 else 0xf8, if r.fat == 32 then 0 else spf, spt, hds, hid,
               if short then 0 else total, if r.fat == 32 then spf else 0,
               if r.fat == 32 then RESFTE else 0, places.infs, places.bkbs)
  }

  /** The block, field by field. */
  lemma SettledParams(q: Request, v: Given, r: Outcome, mid: uint32, p: BootParams)
    requires Blockable(q, v, r)
    requires p.fat == r.fat && p.bps == q.bps && p.spc == r.spc && p.res == r.res && p.nft == q.nft
    requires p.rde == RootEntries(q, r.fat)
    requires p.mid == if mid != 0 then mid else if p.hid == 0 then 0xf0 else 0xf8
    requires p.rdcl == if r.fat == 32 then RESFTE else 0
    requires p.infs == PlacesFor(r.fat, v).infs && p.bkbs == PlacesFor(r.fat, v).bkbs
    requires if r.fat == 32 then p.spf == 0 && p.bspf == r.sizing.spf else p.spf == r.sizing.spf && p.bspf == 0
    requires if Add32(p.hid, r.sizing.bsec) <= MAXU16 then p.sec == r.sizing.bsec && p.bsec == 0
             else p.sec == 0 && p.bsec == r.sizing.bsec
    ensures p == PlannedParams(q, v, r, p.hid, mid, p.spt, p.hds)
  {
    hide PlacesFor;
  }

  lemma PlanBounds(q: Request, fat: FatType, v: Given)
    requires q.Valid() && v.Valid() && PlanGiven(q, fat, v).Planned?
    ensures Blockable(q, v, PlanGiven(q, fat, v)) && PlanGiven(q, fat, v).fat == fat
  {
    hide SizeGiven, ChosenCluster, RootSectors;
    PlacesApart(v);
    SizedBounds(FatPlan.Geom(Fixed(q, fat, PlacesFor(fat, v).free), fat), v.bspf);
  }

  lemma SizedBounds(g: Geometry, bspf: uint32)
    requires g.Valid() && g.first >= 1 && SizeGiven(g, bspf).Sized?
    ensures var r := SizeGiven(g, bspf);
      1 <= r.spf < 0x1_0000_0000 && 0 < r.bsec <= g.bsec && (g.fat != 32 && bspf <= MAXU16 ==> r.spf <= MAXU16)
  {
    hide HowMany;
    GivenIsSound(g, bspf);
    var r := SizeGiven(g, bspf);
    MulLe(0, r.cls, g.spc);
    MulLe(1, r.spf, g.nft);
    if bspf == 0 {
      FatSectors32Exact(g.Capped(), Nibbles(g.fat), g.bps, g.nft);
      if g.fat != 32 {
        SmallFat(g);
      }
    }
  }

  lemma SmallFat(g: Geometry)
    requires g.Valid() && g.Fits() && g.fat != 32
    ensures g.Spf() <= 256
  {
    hide HowMany;
    MulBounds(RESFTE + g.Capped(), Nibbles(g.fat), 65527, 4);
    HowManyLeast((RESFTE + g.Capped()) * Nibbles(g.fat), g.B(), 256);
  }

  /** What is written ends where the data starts or, on FAT32, with the root directory's cluster. */
  lemma ImageFits(q: Request, v: Given, fat: FatType, hid: uint32, mid: uint32, spt: uint32, hds: uint32)
    requires q.Valid() && v.Valid() && (fat == 32 ==> q.rde == 0) && PlanGiven(q, fat, v).Planned?
    ensures Blockable(q, v, PlanGiven(q, fat, v))
    ensures var p := PlannedParams(q, v, PlanGiven(q, fat, v), hid, mid, spt, hds);
      p.Valid() && p.Total() * p.bps <= q.bsec * q.bps
  {
    hide SizeGiven, ChosenCluster, HowMany, RootSectors;
    var r := PlanGiven(q, fat, v);
    PlanBounds(q, fat, v);
    var p := PlannedParams(q, v, r, hid, mid, spt, hds);
    PlacesApart(v);
    GivenIsSound(FatPlan.Geom(Fixed(q, fat, PlacesFor(fat, v).free), fat), v.bspf);
    TotalIs(q, v, fat, p);
    MulLe(1, r.sizing.cls, r.spc);
    MulLe(p.Total(), q.bsec, q.bps);
  }

  /** What stops the plan before the sizing. */
  lemma PlanRefuses(q: Request, fat: FatType, v: Given)
    requires q.Valid() && v.Valid()
    ensures var p := PlacesFor(fat, v);
      && (p.NoPlace? ==> PlanGiven(q, fat, v) == NoPlaceForSpecial)
      && (p.Places? && q.res != 0 && q.res < p.free ==> PlanGiven(q, fat, v) == TooFewReserved)
      && (p.Places? && (q.res == 0 || q.res >= p.free) && fat != 32 && v.bspf > MAXU16 ==> PlanGiven(q, fat, v) == FatTooLong)
  {
    hide SizeGiven, PlacesFor;
  }

  lemma PlanIs(q: Request, fat: FatType, v: Given, free: nat, s: Sizing)
    requires q.Valid() && v.Valid() && PlacesFor(fat, v).Places? && free == PlacesFor(fat, v).free && 1 <= free <= MAXU16
    requires (q.res == 0 || q.res >= free) && (fat == 32 || v.bspf <= MAXU16)
    requires s == SizeGiven(FatPlan.Geom(Fixed(q, fat, free), fat), v.bspf)
    ensures PlanGiven(q, fat, v) ==
            if s.Sized? then
              Planned(fat, ChosenCluster(Fixed(q, fat, free), fat), ReservedFor(q, fat, free), RootSectors(RootEntries(q, fat), q.bps), s)
            else Unsized(s)
  {
    hide SizeGiven, PlacesFor, ChosenCluster, RootSectors;
  }

  lemma GeomIs(q: Request, fat: FatType, free: nat, spc: nat, res: nat, rds: nat)
    requires q.Valid() && 1 <= free <= MAXU16
    requires res == ReservedFor(q, fat, free) && rds == RootSectors(RootEntries(q, fat), q.bps)
    requires spc == if q.spc != 0 then q.spc else GrownCluster(fat, q.bps, res + rds, q.nft, q.bsec)
    ensures spc == ChosenCluster(Fixed(q, fat, free), fat)
    ensures Geometry(fat, q.bps, spc, res + rds, q.nft, q.bsec) == FatPlan.Geom(Fixed(q, fat, free), fat)
  {
    hide GrownCluster, RootSectors;
    assert Front(Fixed(q, fat, free), fat) == res + rds;
  }

  lemma TotalIs(q: Request, v: Given, fat: FatType, p: BootParams)
    requires q.Valid() && v.Valid() && (fat == 32 ==> q.rde == 0) && PlanGiven(q, fat, v).Planned? && p.Valid()
    requires var r := PlanGiven(q, fat, v); Blockable(q, v, r) && p == PlannedParams(q, v, r, p.hid, p.mid, p.spt, p.hds)
    ensures var r := PlanGiven(q, fat, v); p.Total() == r.sizing.dataStart + if fat == 32 then r.spc else 0
  {
    hide SizeGiven, ChosenCluster, HowMany;
    PlacesApart(v);
    GivenIsSound(FatPlan.Geom(Fixed(q, fat, PlacesFor(fat, v).free), fat), v.bspf);
    RootSectorsBound(RootEntries(q, fat), q.bps);
    NoRoot(q.bps);
  }

  /** How the steps before the sizing end. */
  datatype Step = Ready | NoPlaceLeft | TooFew | TooLong

  /** The disk starts with the image and is as before behind it. */
  ghost predicate ImageWritten(before: seq<byte>, after: seq<byte>, x: Extras, p: BootParams) {
    && p.Valid() && |Image(p, x, p.Total())| <= |before|
    && after == Image(p, x, p.Total()) + before[|Image(p, x, p.Total())|..]
  }

  class Bpb {
    var bps: uint32
    var spc: uint32
    var res: uint32
    var nft: uint32
    var rde: uint32
    var sec: uint32
    var mid: uint32
    var spf: uint32
    var spt: uint32
    var hds: uint32
    var hid: uint32
    var bsec: uint32
    var bspf: uint32
    var rdcl: uint32
    var infs: uint32
    var bkbs: uint32

    /** The block as the options leave it. */
    function Asked(): Request
      reads this
    {
      Request(bps, spc, res, nft, rde, bsec)
    }

    function Params(fat: FatType): BootParams
      reads this
    {
      BootParams(fat, bps, spc, res, nft, rde, sec, mid, spf, spt, hds, hid, bsec, bspf, rdcl, infs, bkbs)
    }

    /** FAT size and places of the special sectors, as the options leave them. */
    function GivenNow(): Given
      reads this
    {
      Given(infs, bkbs, bspf)
    }

    /** The block before the layout: nothing that only the tool works out is preset. */
    predicate Fresh()
      reads this
    {
      Asked().Valid() && GivenNow().Valid() && sec == 0 && spf == 0 && rdcl == 0
    }

    /** The options fit the type asked for; zero asks for none. */
    predicate Legal(asked: nat)
      reads this
    {
      && (asked == 0 || asked == 12 || asked == 16 || (asked == 32 && rde == 0))
      && (asked != 32 ==> infs == 0 && bkbs == 0)
    }

    /** Lay the file system out: pick the type where none is asked for, place the reserved sectors,
        settle root directory and clusters, size the FATs, settle the fields. */
    method LayOut(asked: nat) returns (fat: FatType, r: Outcome)
      requires Fresh() && Legal(asked)
      modifies this
      ensures fat == if asked != 0 then asked else SelectType(old(Asked()))
      ensures r == PlanGiven(old(Asked()), fat, old(GivenNow()))
      ensures r.Planned? ==>
                Blockable(old(Asked()), old(GivenNow()), r)
                && Params(fat) == PlannedParams(old(Asked()), old(GivenNow()), r, hid, old(mid), spt, hds)
      ensures hid == old(hid) && spt == old(spt) && hds == old(hds)
    {
      hide PlanGiven, PlannedParams, Blockable, SizeGiven, FatPlan.Geom, RootSectors, SelectType, ChosenCluster, PlacesFor, ReservedFor;
      ghost var q, v := Asked(), GivenNow();
      if asked != 0 {
        fat := asked;
      } else {
        fat := SelectFatType();
      }
      var why, rds := Prepare(fat);
      PlanRefuses(q, fat, v);
      if why != Ready {
        return fat, if why == NoPlaceLeft then NoPlaceForSpecial else if why == TooFew then TooFewReserved else FatTooLong;
      }
      r := Complete(fat, rds, q, v);
    }

    /** Size the FATs and settle the block, reserved area, root directory and clusters being settled. */
    method Complete(fat: FatType, rds: uint32, ghost q: Request, ghost v: Given) returns (r: Outcome)
      requires q.Valid() && v.Valid() && PlacesFor(fat, v).Places? && 1 <= PlacesFor(fat, v).free <= MAXU16
      requires (q.res == 0 || q.res >= PlacesFor(fat, v).free) && (fat == 32 || v.bspf <= MAXU16)
      requires bps == q.bps
      requires var q' := Fixed(q, fat, PlacesFor(fat, v).free);
        && res == q'.res && rde == RootEntries(q, fat) && rds == RootSectors(rde, bps) && spc == ChosenCluster(q', fat)
        && Geom(fat, rds) == FatPlan.Geom(q', fat)
      requires infs == PlacesFor(fat, v).infs && bkbs == PlacesFor(fat, v).bkbs && bspf == v.bspf
      requires nft == q.nft && sec == 0 && spf == 0 && rdcl == 0
      modifies this
      ensures r == PlanGiven(q, fat, v)
      ensures r.Planned? ==>
                Blockable(q, v, r) && Params(fat) == PlannedParams(q, v, r, hid, old(mid), spt, hds)
      ensures hid == old(hid) && spt == old(spt) && hds == old(hds)
    {
      hide PlanGiven, PlannedParams, Blockable, SizeGiven, FatPlan.Geom, RootSectors, ChosenCluster, PlacesFor, ReservedFor;
      ghost var m := mid;
      var s := SizeFats(fat, rds);
      PlanIs(q, fat, v, PlacesFor(fat, v).free, s);
      if !s.Sized? {
        return Unsized(s);
      }
      r := Planned(fat, spc, res, rds, s);
      Finish(fat);
      PlanBounds(q, fat, v);
      SettledParams(q, v, r, m, Params(fat));
    }

    /** Everything that goes before the sizing of the FATs. */
    method Prepare(fat: FatType) returns (why: Step, rds: uint32)
      requires Fresh() && (fat == 32 ==> rde == 0)
      modifies this`infs, this`bkbs, this`res, this`rde, this`spc
      ensures why == NoPlaceLeft <==> PlacesFor(fat, old(GivenNow())).NoPlace?
      ensures why != NoPlaceLeft ==>
                1 <= PlacesFor(fat, old(GivenNow())).free <= MAXU16
                && (why == TooFew <==> old(res) != 0 && old(res) < PlacesFor(fat, old(GivenNow())).free)
      ensures why == Ready || why == TooLong ==> (why == TooLong <==> fat != 32 && bspf > MAXU16)
      ensures why == Ready ==>
                var free := PlacesFor(fat, old(GivenNow())).free;
                && res == ReservedFor(old(Asked()), fat, free)
                && rde == RootEntries(old(Asked()), fat)
                && rds == RootSectors(rde, bps) <= 4096
                && spc == ChosenCluster(Fixed(old(Asked()), fat, free), fat)
                && Geom(fat, rds) == FatPlan.Geom(Fixed(old(Asked()), fat, free), fat)
                && infs == PlacesFor(fat, old(GivenNow())).infs && bkbs == PlacesFor(fat, old(GivenNow())).bkbs
    {
      hide GrownCluster, RootSectors, PlacesFor, Fixed, ChosenCluster, FatPlan.Geom;
      ghost var q, v := Asked(), GivenNow();
      PlacesApart(v);
      if fat != 32 {
        OnePlace(fat, v);
      }
      rds := 0;
      why := PlaceReserved(fat);
      if why == Ready {
        rds := ChooseRoot(fat);
        ChooseCluster(fat, rds);
        GeomIs(q, fat, PlacesFor(fat, v).free, spc, res, rds);
        if fat != 32 && bspf > MAXU16 {
          why := TooLong;
        }
      }
    }

    /** The whole tool: lay out, then write. */
    method MakeFileSystem(asked: nat, x: Extras, disk: Disk) returns (fat: FatType, r: Outcome)
      requires Fresh() && Legal(asked)
      requires bsec * bps <= disk.data.Length
      modifies this, disk`log, disk.data
      ensures fat == if asked != 0 then asked else SelectType(old(Asked()))
      ensures r == PlanGiven(old(Asked()), fat, old(GivenNow()))
      ensures !r.Planned? ==> disk.Contents() == old(disk.Contents()) && disk.log == old(disk.log)
      ensures r.Planned? ==>
                Blockable(old(Asked()), old(GivenNow()), r)
                && ImageWritten(old(disk.Contents()), disk.Contents(), x,
                                PlannedParams(old(Asked()), old(GivenNow()), r, old(hid), old(mid), old(spt), old(hds)))
    {
      hide PlanGiven, PlannedParams, Blockable, Fat16Floor, Fat32Floor, Image, BootParams.Total, BootParams.Valid;
      ghost var q, v, m := Asked(), GivenNow(), mid;
      fat, r := LayOut(asked);
      if r.Planned? {
        ImageFits(q, v, fat, hid, m, spt, hds);
        WriteImage(Params(fat), x, disk);
      }
    }

    method SelectFatType() returns (fat: FatType)
      requires Asked().Valid()
      ensures fat == SelectType(Asked())
      ensures fat == 32 ==> rde == 0
    {
      var small := BelowFat16();
      if small {
        return 12;
      }
      var large := FromFat32();
      fat := if rde != 0 || !large then 16 else 32;
    }

    method BelowFat16() returns (b: bool)
      requires Asked().Valid()
      ensures b <==> bsec < Fat16Floor(Asked())
    {
      hide HowMany, HowMany32, FatSectors32, RootSectors;
      var cls := if spc != 0 then MinCls(16) else MaxCls(12) + 1;
      var fats := FatSectors32(cls, (if spc != 0 then 16 else 12) / 4, bps, nft);
      FatSectors32Exact(cls, if spc != 0 then 4 else 3, bps, nft);
      var root := HowMany32(if rde != 0 then rde else DEFRDE, bps / DIR_ENTRY);
      Root32Exact(if rde != 0 then rde else DEFRDE, bps);
      var data := Mul32(cls, if spc != 0 then spc else HowMany32(DEFBLK, bps));
      Block32Exact(DEFBLK, bps);
      Data32Exact(cls, if spc != 0 then spc else HowMany(DEFBLK, bps));
      b := bsec < Add32(Add32(Add32(if res != 0 then res else BOOT_SECTORS, fats), root), data);
    }

    method FromFat32() returns (b: bool)
      requires Asked().Valid()
      ensures b <==> bsec >= Fat32Floor(Asked())
    {
      hide HowMany, HowMany32, RootSectors;
      var fats := Mul32(HowMany32(Mul32(Add32(RESFTE, MaxCls(16)), 2), bps), nft);
      LargestFat16Exact(bps, nft);
      var root := HowMany32(DEFRDE, bps / DIR_ENTRY);
      Root32Exact(DEFRDE, bps);
      var data := Mul32(Add32(MaxCls(16), 1), if spc != 0 then spc else HowMany32(8192, bps));
      Block32Exact(8192, bps);
      Data32Exact(65526, if spc != 0 then spc else HowMany(8192, bps));
      b := bsec >= Add32(Add32(Add32(if res != 0 then res else BOOT_SECTORS, fats), root), data);
    }

    /** Give the information sector and the copy of the boot sector their places and size the
        reserved area. */
    method PlaceReserved(fat: FatType) returns (why: Step)
      requires SectorSize(bps) && GivenNow().Valid()
      modifies this`infs, this`bkbs, this`res
      ensures why == Ready || why == NoPlaceLeft || why == TooFew
      ensures var p := PlacesFor(fat, old(GivenNow()));
        && (why == NoPlaceLeft <==> p.NoPlace?)
        && (p.Places? ==> infs == p.infs && bkbs == p.bkbs && (why == TooFew <==> old(res) != 0 && old(res) < p.free))
        && (why == Ready ==>
             res == if old(res) != 0 then old(res) else if fat == 32 then Max(p.free, Fat32Alignment(bps)) else p.free)
    {
      var x: uint32 := BOOT_SECTORS;
      if fat == 32 {
        var ok;
        ok, x := PlaceSpecial();
        if !ok {
          return NoPlaceLeft;
        }
      }
      if res == 0 {
        res := if fat == 32 then Max(x, Fat32Alignment(bps)) else x;
      } else if res < x {
        return TooFew;
      }
      return Ready;
    }

    /** The places of the information sector and of the boot sector's copy on FAT32, and the first
        sector free behind them. */
    method PlaceSpecial() returns (ok: bool, x: uint32)
      requires GivenNow().Valid()
      modifies this`infs, this`bkbs
      ensures ok <==> PlacesFor(32, old(GivenNow())).Places?
      ensures ok ==> PlacesFor(32, old(GivenNow())) == Places(infs, bkbs, x)
    {
      x := BOOT_SECTORS;
      if infs == 0 {
        if x == MAXU16 || x == bkbs {
          return false, x;
        }
        infs := x;
      }
      if infs != MAXU16 && x <= infs {
        x := infs + 1;
      }
      if bkbs == 0 {
        if x == MAXU16 {
          return false, x;
        }
        bkbs := x;
      } else if bkbs != MAXU16 && bkbs == infs {
        return false, x;
      }
      if bkbs != MAXU16 && x <= bkbs {
        x := bkbs + 1;
      }
      ok := true;
    }

    /** Settle the root directory's size and count its sectors. */
    method ChooseRoot(fat: FatType) returns (rds: uint32)
      requires SectorSize(bps) && rde <= MAXU16
      modifies this`rde
      ensures rde == if fat != 32 && old(rde) == 0 then DEFRDE else old(rde)
      ensures rds == RootSectors(rde, bps) <= 4096
    {
      if fat != 32 && rde == 0 {
        rde := DEFRDE;
      }
      rds := HowMany32(rde, bps / DIR_ENTRY);
      Root32Exact(rde, bps);
    }

    /** Settle the cluster size. */
    method ChooseCluster(fat: FatType, rds: uint32)
      requires SectorSize(bps) && (spc == 0 || ClusterSize(spc)) && nft <= MAXNFT && res <= MAXU16 && rds <= 4096
      modifies this`spc
      ensures spc == if old(spc) != 0 then old(spc)
                     else GrownCluster(fat, bps, res + rds, nft, bsec)
      ensures ClusterSize(spc)
    {
      hide FixedForMax, DoubleCluster, FirstCluster;
      if spc == 0 {
        spc := FirstCluster32(fat);
        var fixed := FixedSectors(fat, rds);
        GrowCluster(fixed, MaxCls(fat) + 1);
      }
    }

    method FirstCluster32(fat: FatType) returns (s: uint32)
      requires SectorSize(bps)
      ensures s == FirstCluster(fat, bps)
    {
      s := HowMany32(if fat == 16 then DEFBLK16 else DEFBLK, bps);
      Block32Exact(if fat == 16 then DEFBLK16 else DEFBLK, bps);
    }

    method FixedSectors(fat: FatType, rds: uint32) returns (fixed: uint32)
      requires SectorSize(bps) && nft <= MAXNFT && res <= MAXU16 && rds <= 4096
      ensures fixed == FixedForMax(fat, bps, res + rds, nft)
    {
      fixed := Add32(Add32(res, FatSectors32(MaxCls(fat), Nibbles(fat), bps, nft)), rds);
      FatSectors32Exact(MaxCls(fat), Nibbles(fat), bps, nft);
    }

    method GrowCluster(fixed: uint32, m: uint32)
      requires 1 <= spc <= MAXSPC && m <= 0x1000_0000
      modifies this`spc
      ensures spc == DoubleCluster(fixed, m, bsec, old(spc))
    {
      while spc < MAXSPC && fixed + DataSectors64(m, spc) <= bsec
        invariant 1 <= spc < 2 * MAXSPC
        invariant DoubleCluster(fixed, m, bsec, spc) == DoubleCluster(fixed, m, bsec, old(spc))
        decreases MAXSPC - spc
      {
        spc := spc * 2;
      }
    }

    ghost function Geom(fat: FatType, rds: uint32): Geometry
      reads this
    {
      Geometry(fat, bps, spc, res + rds, nft, bsec)
    }

    /** Size the FATs, unless their size is given, and count the clusters. */
    method SizeFats(fat: FatType, rds: uint32) returns (r: Sizing)
      requires Geom(fat, rds).Valid()
      modifies this`bspf, this`bsec
      ensures r == SizeGiven(old(Geom(fat, rds)), old(bspf))
      ensures r.Sized? ==> bspf == r.spf && bsec == r.bsec
    {
      hide HowMany, HowMany32, FatSectors32, Mul32, Geometry.Estimate, Geometry.Spf, Geometry.DataStart, Settle, SizeFat;
      ghost var g := Geom(fat, rds);
      var x1 := Add32(res, rds);
      var x: uint32 := if bspf != 0 then bspf else 1;
      MulLe(0, nft, x);
      if x1 + x * nft > bsec {
        if bspf == 0 {
          TooBig(g);
        }
        return MetadataTooBig;
      }
      Product32(x, nft);
      x1 := Add32(x1, Mul32(x, nft));
      if bspf == 0 {
        x := Estimate(fat, x1, g);
        Spf32(g);
        bspf := HowMany32(Mul32(Add32(RESFTE, if x < MaxCls(fat) then x else MaxCls(fat)), Nibbles(fat)), Mul32(bps, 2));
        x1 := Add32(x1, Mul32(Sub32(bspf, 1), nft));
        SizeFatSettles(g);
      }
      r := Limit(fat, x1, g);
    }

    /** Count the clusters, refuse too few, and give up sectors where there are too many. */
    method Limit(fat: FatType, x1: uint32, ghost g: Geometry) returns (r: Sizing)
      requires g == Geometry(fat, bps, spc, g.first, nft, bsec) && g.Valid() && x1 <= bsec
      modifies this`bsec
      ensures r == Settle(g, bspf, x1)
      ensures r.Sized? ==> bspf == r.spf && bsec == r.bsec
    {
      hide CountFor;
      var cls := Count(fat, x1, g);
      if cls < MinCls(fat) {
        return TooFewClusters(cls);
      }
      if cls > MaxCls(fat) {
        ClampBelow(g, bspf, x1);
        ClampSum(x1, MaxCls(fat) + 1, spc, bsec);
        bsec := Sub32(Add32(x1, Mul32(Add32(MaxCls(fat), 1), spc)), 1);
        return Sized(bspf, x1, MaxCls(fat), bsec);
      }
      r := Sized(bspf, x1, cls, bsec);
    }

    /** The clusters for which there would be room, x1 sectors being taken. */
    method Estimate(fat: FatType, x1: uint32, ghost g: Geometry) returns (x: uint32)
      requires g == Geometry(fat, bps, spc, g.first, nft, bsec) && g.Valid() && g.Fits() && x1 == g.first + nft
      ensures x == g.Estimate()
    {
      Estimate32(g);
      x := U32(U64(U64(Sub32(bsec, x1) * bps) * 2) / Add32(Mul32(Mul32(spc, bps), 2), Mul32(Nibbles(fat), nft)));
    }

    /** The clusters behind sector x1, but no more than the FAT has entries for. */
    method Count(fat: FatType, x1: uint32, ghost g: Geometry) returns (cls: uint32)
      requires g == Geometry(fat, bps, spc, g.first, nft, bsec) && g.Valid() && x1 <= bsec
      ensures cls == CountFor(g, bspf, x1)
    {
      DivSmall(bsec - x1, spc);
      cls := Sub32(bsec, x1) / spc;
      Doubled64(bspf, bps);
      var x := Sub32(U32(U64(U64(bspf * bps) * 2) / Nibbles(fat)), RESFTE);
      if cls > x {
        cls := x;
      }
    }

    /** Settle the fields that say the same thing in two widths. */
    method Finish(fat: FatType)
      modifies this
      ensures unchanged(`bps, `spc, `res, `nft, `rde, `spt, `hds, `hid, `infs, `bkbs)
      ensures mid == if old(mid) != 0 then old(mid) else if hid == 0 then 0xf0 else 0xf8
      ensures rdcl == if fat == 32 then RESFTE else old(rdcl)
      ensures if Add32(hid, old(bsec)) <= MAXU16 then sec == old(bsec) && bsec == 0 else unchanged(`sec, `bsec)
      ensures if fat != 32 then spf == old(bspf) && bspf == 0 else unchanged(`spf, `bspf)
    {
      if mid == 0 {
        mid := if hid == 0 then 0xf0 else 0xf8;
      }
      if fat == 32 {
        rdcl := RESFTE;
      }
      if Add32(hid, bsec) <= MAXU16 {
        sec := bsec;
        bsec := 0;
      }
      if fat != 32 {
        spf := bspf;
        bspf := 0;
      }
    }
  }

  lemma Estimate32(g: Geometry)
    requires g.Valid() && g.Fits()
    ensures U64(g.Room() * g.bps) == g.Room() * g.bps
    ensures U64(g.Room() * g.bps * 2) == g.Room() * g.B()
    ensures Add32(Mul32(Mul32(g.spc, g.bps), 2), Mul32(Nibbles(g.fat), g.nft)) == g.ClusterCost()
    ensures g.Estimate() < 0x1_0000_0000
  {
    hide Geometry.ClusterCost, Add32, Mul32, Quotient;
    Room32(g.Room(), g.bps);
    Cost32(g);
    CostAtLeastSector(g);
    EstimateBelow(g.Room() * g.B(), g.ClusterCost(), g.Room());
  }

  lemma Room32(room: uint32, bps: nat)
    requires bps <= 32768
    ensures 0 <= room * bps && U64(room * bps) == room * bps && U64(room * bps * 2) == room * (bps * 2)
  {
    MulBounds(room, bps, 0xffff_ffff, 32768);
    assert room * (bps * 2) == room * bps * 2;
  }

  lemma CostAtLeastSector(g: Geometry)
    requires g.Valid() && g.Fits()
    ensures g.Room() * g.B() <= g.ClusterCost() * g.Room()
  {
    MulLe(1, g.spc, g.B());
    MulLe(0, Nibbles(g.fat), g.nft);
    MulLe(g.B(), g.ClusterCost(), g.Room());
  }

  lemma EstimateBelow(a: nat, b: nat, k: nat)
    requires b > 0 && a <= b * k
    ensures Quotient(a, b) <= k
  {
    assert (k + 1) * b == b * k + b;
    QuotientAtLeast(a, b, k + 1);
  }

  lemma Cost32(g: Geometry)
    requires g.Valid()
    ensures Add32(Mul32(Mul32(g.spc, g.bps), 2), Mul32(Nibbles(g.fat), g.nft)) == g.ClusterCost()
  {
    hide U32;
    MulBounds(Nibbles(g.fat), g.nft, 8, MAXNFT);
    MulBounds(g.spc, g.bps, 128, 32768);
    assert g.spc * g.B() == g.spc * g.bps * 2;
  }

  lemma Spf32(g: Geometry)
    requires g.Valid() && g.Fits()
    ensures Mul32(g.bps, 2) == g.bps * 2
    ensures HowMany32(Mul32(Add32(RESFTE, g.Capped()), Nibbles(g.fat)), Mul32(g.bps, 2)) == g.Spf()
    ensures 1 <= g.Spf() < 0x1_0000_0000 && g.DataStart() <= g.bsec
    ensures Add32(g.first + g.nft, Mul32(g.Spf() - 1, g.nft)) == g.DataStart()
  {
    FatSectors32Exact(g.Capped(), Nibbles(g.fat), g.bps, g.nft);
    FatsFit(g);
    OneMore(g.nft, g.Spf());
    MulLe(0, g.Spf() - 1, g.nft);
  }

  lemma Doubled64(a: uint32, b: nat)
    requires b <= 32768
    ensures 0 <= a * b && U64(U64(a * b) * 2) == a * (b * 2)
  {
    MulBounds(a, b, 0xffff_ffff, 32768);
    assert a * (b * 2) == a * b * 2;
  }

  lemma DivSmall(a: uint32, b: nat)
    requires b >= 1
    ensures 0 <= a / b <= a
  {
    QuotientBounds(a, b);
    MulLe(1, b, a / b);
  }

  lemma Product32(a: uint32, b: uint32)
    ensures 0 <= a * b && (a * b < 0x1_0000_0000 ==> Mul32(a, b) == a * b)
  {
    MulLe(0, a, b);
  }

  lemma TooBig(g: Geometry)
    requires g.Valid() && !g.Fits()
    ensures SizeFat(g) == MetadataTooBig
  {
  }

  lemma ClampSum(x1: uint32, m: uint32, spc: uint32, bsec: uint32)
    requires 1 <= m * spc && x1 + m * spc <= bsec
    ensures Add32(x1, Mul32(m, spc)) == x1 + m * spc
  {
  }

  lemma OnePlace(fat: FatType, v: Given)
    requires v.Valid() && fat != 32
    ensures PlacesFor(fat, v) == Places(v.infs, v.bkbs, 1)
  {
  }
}
