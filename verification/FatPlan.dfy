/** What the sizing promises, to the tool itself and to whoever reads the file system later. */
module FatPlan {
  import opened Arithmetic
  import opened FatLayout

  /** How a reader of the boot sector counts clusters: whatever lies behind the FATs. */
  function ReaderClusters(r: Sizing, spc: nat): nat
    requires r.Sized? && r.dataStart <= r.bsec && spc > 0
  {
    Quotient(r.bsec - r.dataStart, spc)
  }

  /** The FAT, not the disk, sets the cluster count; the tool then leaves the sector count alone. */
  predicate LimitedByFat(g: Geometry)
    requires g.Valid() && g.Fits()
  {
    FatsFit(g);
    g.FatClusters() < g.DiskClusters() && g.FatClusters() <= MaxCls(g.fat)
  }

  /** Reserved area, FATs, root directory and clusters fit on the disk one behind the other, every
      cluster has an entry in every FAT, and the cluster count suits the FAT type. */
  lemma SizingIsSound(g: Geometry)
    requires g.Valid() && SizeFat(g).Sized?
    ensures var r := SizeFat(g);
      && r.dataStart == g.first + r.spf * g.nft
      && r.dataStart + r.cls * g.spc <= r.bsec <= g.bsec
      && (RESFTE + r.cls) * Nibbles(g.fat) <= r.spf * g.B()
      && MinCls(g.fat) <= r.cls <= MaxCls(g.fat)
      && 1 <= r.spf
  {
    SizingFits(g);
    FatsFit(g);
    var r := SizeFat(g);
    DataHolds(g, r.cls);
    QuotientAtLeast(r.spf * g.B(), Nibbles(g.fat), RESFTE + r.cls);
    if g.Clusters() > MaxCls(g.fat) {
      DataHolds(g, r.cls + 1);
      OneMore(g.spc, r.cls + 1);
    }
  }

  lemma DataHolds(g: Geometry, m: nat)
    requires g.Valid() && g.Fits() && g.DataStart() <= g.bsec && m <= g.DiskClusters()
    ensures g.DataStart() + m * g.spc <= g.bsec
  {
    QuotientAtLeast(g.bsec - g.DataStart(), g.spc, m);
  }

  /** And no sector of a FAT is wasted: without its last one there would be too few entries. */
  lemma NoSectorWasted(g: Geometry)
    requires g.Valid() && SizeFat(g).Sized?
    ensures var r := SizeFat(g); (r.spf - 1) * g.B() < (RESFTE + r.cls) * Nibbles(g.fat)
  {
    SizingFits(g);
    SpfBounds(g.Capped(), Nibbles(g.fat), g.B());
    MulLe(RESFTE + g.Capped(), RESFTE + SizeFat(g).cls, Nibbles(g.fat));
  }

  /** After the clamp the image is strictly smaller, and a reader counts exactly the maximum; with one
      more sector it would count one more cluster, so no fewer sectors are given up. */
  lemma ClampIsExact(g: Geometry)
    requires g.Valid() && SizeFat(g).Sized?
    requires g.Clusters() > MaxCls(g.fat)
    ensures var r := SizeFat(g);
      && r.bsec < g.bsec && r.dataStart <= r.bsec && ReaderClusters(r, g.spc) == MaxCls(g.fat)
      && Quotient(r.bsec + 1 - r.dataStart, g.spc) == MaxCls(g.fat) + 1
  {
    var r := SizeFat(g);
    SizingIsSound(g);
    QuotientAtLeast(g.bsec - g.DataStart(), g.spc, MaxCls(g.fat) + 1);
    QuotientAtLeast(r.bsec - r.dataStart, g.spc, MaxCls(g.fat));
    QuotientAtLeast(r.bsec - r.dataStart, g.spc, MaxCls(g.fat) + 1);
    OneMore(g.spc, MaxCls(g.fat) + 1);
    QuotientAtLeast(r.bsec + 1 - r.dataStart, g.spc, MaxCls(g.fat) + 1);
    QuotientAtLeast(r.bsec + 1 - r.dataStart, g.spc, MaxCls(g.fat) + 2);
    OneMore(g.spc, MaxCls(g.fat) + 2);
  }

  /** A reader counts the tool's clusters, and finds a FAT entry for each cluster it counts,
      exactly when the FAT was not what limited the count. */
  lemma ReaderAgrees(g: Geometry)
    requires g.Valid() && SizeFat(g).Sized?
    ensures var r := SizeFat(g);
      && r.dataStart <= r.bsec
      && (ReaderClusters(r, g.spc) == r.cls <==> !LimitedByFat(g))
      && ((RESFTE + ReaderClusters(r, g.spc)) * Nibbles(g.fat) <= r.spf * g.B() <==> !LimitedByFat(g))
  {
    var r := SizeFat(g);
    SizingIsSound(g);
    SizingFits(g);
    if g.Clusters() > MaxCls(g.fat) {
      ClampIsExact(g);
    } else {
      QuotientAtLeast(r.spf * g.B(), Nibbles(g.fat), RESFTE + ReaderClusters(r, g.spc));
    }
  }

  /** It does happen: 4419 sectors of 512 bytes, one sector to a cluster, two FATs. The reader
      counts 4352 clusters, the FATs have entries for 4350. */
  lemma ReaderCanOvercount()
    ensures var q := Request(512, 1, 0, 2, 0, 4419);
      && SelectType(q) == 16
      && Plan(q, 16) == Planned(16, 1, 1, 32, Sized(17, 67, 4350, 4419))
      && ReaderClusters(Sized(17, 67, 4350, 4419), 1) == 4352
      && (RESFTE + 4352) * Nibbles(16) > 17 * 1024
  {
    var q := Request(512, 1, 0, 2, 0, 4419);
    assert Geom(q, 16) == Geometry(16, 512, 1, 33, 2, 4419);
    OvercountedSizing(Geom(q, 16));
  }

  lemma OvercountedSizing(g: Geometry)
    requires g == Geometry(16, 512, 1, 33, 2, 4419)
    ensures SizeFat(g) == Sized(17, 67, 4350, 4419)
    ensures ReaderClusters(SizeFat(g), 1) == 4352
  {
    assert g.Estimate() == 4350;
  }

  datatype Outcome =
    | NoPlaceForSpecial
    | TooFewReserved
    | FatTooLong
    | Unsized(why: Sizing)
    | Planned(fat: FatType, spc: nat, res: nat, rds: nat, sizing: Sizing)

  /** Sectors the tool needs in front of the FATs: the boot sector, and on FAT32 the information
      sector and the copy of the boot sector. */
  function MinReserved(fat: FatType): nat {
    if fat == 32 then 3 else 1
  }

  function Max(a: nat, b: nat): nat {
    if a > b then a else b
  }

  /** 16 KiB, and at least 4 sectors. */
  function Fat32Alignment(bps: nat): (r: nat)
    requires SectorSize(bps)
    ensures 4 <= r <= 32
  {
    Max(16384 / bps, 4)
  }

  function Reserved(q: Request, fat: FatType): nat
    requires q.Valid()
  {
    if q.res != 0 then q.res
    else if fat == 32 then Max(MinReserved(32), Fat32Alignment(q.bps))
    else MinReserved(fat)
  }

  function RootEntries(q: Request, fat: FatType): nat {
    if fat != 32 && q.rde == 0 then DEFRDE else q.rde
  }

  lemma NoRoot(bps: nat)
    requires SectorSize(bps)
    ensures RootSectors(0, bps) == 0
  {
  }

  /** Sectors that the largest cluster count of the type needs beside the clusters. */
  function FixedForMax(fat: FatType, bps: nat, first: nat, nft: nat): int
    requires SectorSize(bps)
  {
    first + HowMany((RESFTE + MaxCls(fat)) * Nibbles(fat), bps * 2) * nft
  }

  /** Double the cluster until m clusters no longer fit on the disk beside the fixed sectors. */
  function DoubleCluster(fixed: int, m: nat, bsec: nat, spc: nat): nat
    requires spc >= 1
    decreases MAXSPC - spc
  {
    if spc < MAXSPC && fixed + m * spc <= bsec then DoubleCluster(fixed, m, bsec, 2 * spc) else spc
  }

  lemma {:induction false} DoubleClusterSize(fixed: int, m: nat, bsec: nat, spc: nat)
    requires ClusterSize(spc)
    ensures ClusterSize(DoubleCluster(fixed, m, bsec, spc))
    decreases MAXSPC - spc
  {
    if spc < MAXSPC && fixed + m * spc <= bsec {
      DoubleClusterSize(fixed, m, bsec, 2 * spc);
    }
  }

  /** The cluster size picked for a FAT type. */
  function GrownCluster(fat: FatType, bps: nat, first: nat, nft: nat, bsec: nat): (r: nat)
    requires SectorSize(bps)
    ensures ClusterSize(r)
  {
    var spc := FirstCluster(fat, bps);
    DoubleClusterSize(FixedForMax(fat, bps, first, nft), MaxCls(fat) + 1, bsec, spc);
    DoubleCluster(FixedForMax(fat, bps, first, nft), MaxCls(fat) + 1, bsec, spc)
  }

  function FirstCluster(fat: FatType, bps: nat): (r: nat)
    requires SectorSize(bps)
    ensures ClusterSize(r)
  {
    HowMany(if fat == 16 then DEFBLK16 else DEFBLK, bps)
  }

  /** Reserved sectors and root directory. */
  function Front(q: Request, fat: FatType): (r: nat)
    requires q.Valid()
    ensures r < 0x4_0000
  {
    RootSectorsBound(RootEntries(q, fat), q.bps);
    Reserved(q, fat) + RootSectors(RootEntries(q, fat), q.bps)
  }

  lemma RootSectorsBound(rde: nat, bps: nat)
    requires SectorSize(bps) && rde <= MAXU16
    ensures 0 <= RootSectors(rde, bps) <= 4096
  {
    HowManyLeast(rde, bps / DIR_ENTRY, 4096);
  }

  function ChosenCluster(q: Request, fat: FatType): (r: nat)
    requires q.Valid()
    ensures ClusterSize(r)
  {
    if q.spc != 0 then q.spc
    else GrownCluster(fat, q.bps, Front(q, fat), q.nft, q.bsec)
  }

  function Geom(q: Request, fat: FatType): (g: Geometry)
    requires q.Valid()
    ensures g.Valid()
  {
    Geometry(fat, q.bps, ChosenCluster(q, fat), Front(q, fat), q.nft, q.bsec)
  }

  /** The tool from the choice of the type on: fat is the type asked for or selected. */
  function Plan(q: Request, fat: FatType): (r: Outcome)
    requires q.Valid()
    ensures r.Planned? ==> r.sizing.Sized?
  {
    if q.res != 0 && q.res < MinReserved(fat) then TooFewReserved
    else
      var r := SizeFat(Geom(q, fat));
      if r.Sized? then Planned(fat, ChosenCluster(q, fat), Reserved(q, fat), RootSectors(RootEntries(q, fat), q.bps), r)
      else Unsized(r)
  }
}
