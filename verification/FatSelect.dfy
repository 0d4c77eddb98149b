/** The FAT type is picked from a rough estimate, before anything is laid out. Here: when the later
    sizing cannot refuse what was picked. */
module FatSelect {
  import opened Arithmetic
  import opened FatLayout
  import opened FatPlan

  predicate Succeeds(q: Request, fat: FatType)
    requires q.Valid()
  {
    Plan(q, fat).Planned?
  }

  /** Room for at least m clusters of spc sectors, and for the FAT entries they cost, means at
      least m clusters. */
  lemma EnoughRoom(g: Geometry, m: nat)
    requires g.Valid() && g.Fits() && m <= MaxCls(g.fat)
    requires m * g.ClusterCost() <= g.Room() * g.B()
    ensures g.DataStart() <= g.bsec && m <= g.Clusters()
  {
    MulLe(0, g.Room(), g.B());
    QuotientAtLeast(g.Room() * g.B(), g.ClusterCost(), m);
    SizingFits(g);
  }

  /** The nibbles that 4098 FAT16 entries leave over in their last sector: all but 8. */
  lemma EntriesFillSectors(b: nat)
    requires b == 1024 || b == 2048 || b == 4096 || b == 8192 || b == 16384
    ensures (HowMany(16392, b) - 1) * b == 16384
  {
  }

  lemma RoomFor4096(g: Geometry, h: nat)
    requires g.Valid() && g.Fits() && g.fat == 16
    requires h >= 1 && (h - 1) * g.B() == 16384
    requires g.Room() >= (h - 1) * g.nft + 4096 * g.spc
    ensures 4096 * g.ClusterCost() <= g.Room() * g.B()
  {
    ScaledCost((h - 1) * g.nft + 4096 * g.spc, g.Room(), h - 1, g.nft, g.spc, g.B());
  }

  lemma ScaledCost(least: nat, room: nat, k: nat, n: nat, spc: nat, b: nat)
    requires k * b == 16384 && least == k * n + 4096 * spc <= room
    ensures 4096 * (spc * b + 4 * n) <= room * b
  {
    MulLe(least, room, b);
    assert k * n * b == k * b * n;
    assert 4096 * spc * b == 4096 * (spc * b);
  }

  /** Where one sector holds the entries of m clusters, room for m clusters is enough: if the
      estimate falls short of m, the FAT has one sector. */
  lemma OneSectorFat(g: Geometry, m: nat)
    requires g.Valid() && g.Fits() && (RESFTE + m) * Nibbles(g.fat) <= g.B()
    requires g.Room() >= m * g.spc
    ensures g.DataStart() <= g.bsec && (m <= MaxCls(g.fat) ==> m <= g.Clusters())
  {
    SizingFits(g);
    if g.Capped() < m {
      SpfIsOne(g, m);
      hide Geometry.Capped, Geometry.Spf;
      QuotientAtLeast(g.bsec - g.DataStart(), g.spc, m);
      QuotientAtLeast(g.Spf() * g.B(), Nibbles(g.fat), RESFTE + m);
    }
  }

  lemma SpfIsOne(g: Geometry, m: nat)
    requires g.Valid() && g.Fits() && g.Capped() <= m && (RESFTE + m) * Nibbles(g.fat) <= g.B()
    ensures g.Spf() == 1
  {
    hide Geometry.Capped, HowMany;
    MulLe(RESFTE + g.Capped(), RESFTE + m, Nibbles(g.fat));
    SpfBounds(g.Capped(), Nibbles(g.fat), g.B());
    HowManyLeast((RESFTE + g.Capped()) * Nibbles(g.fat), g.B(), 1);
  }

  lemma Fat16FloorIs(q: Request)
    requires q.Valid() && q.spc != 0
    ensures Fat16Floor(q) == Front(q, 16) + HowMany(16392, q.bps * 2) * q.nft + 4096 * q.spc
  {
  }

  lemma Fat16HasRoom(q: Request)
    requires q.Valid() && q.spc != 0 && q.bsec >= Fat16Floor(q)
    ensures var g := Geom(q, 16); g.Fits() && g.Room() >= (HowMany(16392, g.B()) - 1) * g.nft + 4096 * g.spc
  {
    Fat16FloorIs(q);
    PaysForOne(HowMany(16392, q.bps * 2), q.nft);
  }

  lemma PaysForOne(h: nat, n: nat)
    requires h >= 1
    ensures h * n == (h - 1) * n + n && (h - 1) * n >= 0
  {
  }

  /** When the cluster size is given and the tool itself picks FAT16, laying it out never fails:
      there are at least 4096 clusters, for every sector size and number of FATs. */
  lemma SelectedFat16Succeeds(q: Request)
    requires q.Valid() && q.spc != 0 && SelectType(q) == 16
    ensures Succeeds(q, 16) && Plan(q, 16).sizing.cls >= 4096
  {
    Fat16HasRoom(q);
    RoomMeansClusters(Geom(q, 16));
  }

  lemma RoomMeansClusters(g: Geometry)
    requires g.Valid() && g.Fits() && g.fat == 16
    requires g.Room() >= (HowMany(16392, g.B()) - 1) * g.nft + 4096 * g.spc
    ensures g.DataStart() <= g.bsec && g.Clusters() >= 4096
  {
    if g.bps >= 16384 {
      OneSectorFat(g, 4096);
    } else {
      EntriesFillSectors(g.B());
      RoomFor4096(g, HowMany(16392, g.B()));
      EnoughRoom(g, 4096);
    }
  }

  lemma AtLeastOneSector(x: nat, y: nat, n: nat)
    requires x >= 1 && y >= 1
    ensures HowMany(x, y) * n >= n
  {
    HowManyCeiling(x, y);
    MulCancel(0, HowMany(x, y), y);
    MulLe(1, HowMany(x, y), n);
  }

  /** Sectors for the least cluster count of the type: the front, FATs with its entries, its clusters. */
  function LeastSectors(fat: FatType, bps: nat, first: nat, nft: nat, spc: nat): nat
    requires SectorSize(bps)
  {
    MulLe(0, nft, HowMany((RESFTE + MinCls(fat)) * Nibbles(fat), bps * 2));
    MulLe(0, spc, MinCls(fat));
    first + HowMany((RESFTE + MinCls(fat)) * Nibbles(fat), bps * 2) * nft + MinCls(fat) * spc
  }

  lemma LeastIsEnough(g: Geometry)
    requires g.Valid() && g.bsec >= LeastSectors(g.fat, g.bps, g.first, g.nft, g.spc)
    ensures g.Fits() && g.DataStart() <= g.bsec && g.Clusters() >= MinCls(g.fat)
  {
    hide Geometry.DataStart, Geometry.Clusters;
    var x := (RESFTE + MinCls(g.fat)) * Nibbles(g.fat);
    AtLeastOneSector(x, g.B(), g.nft);
    MulLe(0, g.spc, MinCls(g.fat));
    if g.fat == 16 {
      PaysForOne(HowMany(x, g.B()), g.nft);
      RoomMeansClusters(g);
    } else {
      HowManyLeast(x, g.B(), 1);
      MulLe(HowMany(x, g.B()), 1, g.nft);
      OneSectorFat(g, MinCls(g.fat));
    }
  }

  lemma LeastIsNeeded(g: Geometry)
    requires g.Valid() && SizeFat(g).Sized?
    ensures g.bsec >= LeastSectors(g.fat, g.bps, g.first, g.nft, g.spc)
  {
    hide SizeFat;
    SizingIsSound(g);
    var r := SizeFat(g);
    MulLe(RESFTE + MinCls(g.fat), RESFTE + r.cls, Nibbles(g.fat));
    HowManyLeast((RESFTE + MinCls(g.fat)) * Nibbles(g.fat), g.B(), r.spf);
    MulLe(HowMany((RESFTE + MinCls(g.fat)) * Nibbles(g.fat), g.B()), r.spf, g.nft);
    MulLe(MinCls(g.fat), r.cls, g.spc);
  }

  /** Laying out succeeds exactly with room for the least cluster count, and with the reserved
      sectors that the type needs, for every type and whether the cluster size is given or not. */
  lemma SucceedsExactly(q: Request, fat: FatType)
    requires q.Valid()
    ensures Succeeds(q, fat) <==>
              (q.res == 0 || q.res >= MinReserved(fat))
              && q.bsec >= LeastSectors(fat, q.bps, Front(q, fat), q.nft, ChosenCluster(q, fat))
  {
    hide LeastSectors, Front, ChosenCluster;
    var g := Geom(q, fat);
    if SizeFat(g).Sized? {
      LeastIsNeeded(g);
    }
    if g.bsec >= LeastSectors(g.fat, g.bps, g.first, g.nft, g.spc) {
      LeastIsEnough(g);
    }
  }

  /** Without a cluster size the condition can be read off the request: doubling never costs the
      least cluster count its room. */
  lemma SucceedsExactlyUnset(q: Request, fat: FatType)
    requires q.Valid() && q.spc == 0
    ensures Succeeds(q, fat) <==>
              (q.res == 0 || q.res >= MinReserved(fat))
              && q.bsec >= LeastSectors(fat, q.bps, Front(q, fat), q.nft, FirstCluster(fat, q.bps))
  {
    hide LeastSectors, Front, Plan, GrownCluster, FirstCluster;
    SucceedsExactly(q, fat);
    DoublingKeepsRoom(fat, q.bps, Front(q, fat), q.nft, q.bsec);
    assert ChosenCluster(q, fat) == GrownCluster(fat, q.bps, Front(q, fat), q.nft, q.bsec);
  }

  lemma DoublingKeepsRoom(fat: FatType, bps: nat, first: nat, nft: nat, bsec: nat)
    requires SectorSize(bps)
    ensures bsec >= LeastSectors(fat, bps, first, nft, GrownCluster(fat, bps, first, nft, bsec)) <==>
            bsec >= LeastSectors(fat, bps, first, nft, FirstCluster(fat, bps))
  {
    var start, d := FirstCluster(fat, bps), GrownCluster(fat, bps, first, nft, bsec);
    hide FirstCluster, DoubleCluster, HowMany;
    DoublingStops(FixedForMax(fat, bps, first, nft), MaxCls(fat) + 1, bsec, start);
    MulLe(start, d, MinCls(fat));
    HowManyGrows((RESFTE + MinCls(fat)) * Nibbles(fat), (RESFTE + MaxCls(fat)) * Nibbles(fat), bps * 2, nft);
    assert d % 2 == 0 ==> MinCls(fat) * d <= (MaxCls(fat) + 1) * (d / 2);
  }

  lemma HowManyGrows(x: nat, x': nat, y: nat, n: nat)
    requires y > 0 && x <= x'
    ensures HowMany(x, y) * n <= HowMany(x', y) * n
  {
    HowManyCeiling(x', y);
    HowManyLeast(x, y, HowMany(x', y));
    MulLe(HowMany(x, y), HowMany(x', y), n);
  }

  /** When the tool picks FAT32, only a reserved area asked for and too small for the information
      and backup sectors can stop it. */
  lemma SelectedFat32Succeeds(q: Request)
    requires q.Valid() && SelectType(q) == 32
    ensures Succeeds(q, 32) <==> (q.res == 0 || q.res >= 3)
  {
    hide HowMany, Fat32Floor, Plan, LeastSectors;
    Fat32FloorCovers(q);
    if q.spc != 0 {
      SucceedsExactly(q, 32);
    } else {
      SucceedsExactlyUnset(q, 32);
    }
  }

  /** The least FAT32 takes less than the tool asks for before it picks one. */
  lemma Fat32FloorCovers(q: Request)
    requires q.Valid() && q.rde == 0
    ensures LeastSectors(32, q.bps, Front(q, 32), q.nft, if q.spc != 0 then q.spc else FirstCluster(32, q.bps))
            <= Fat32Floor(q)
  {
    hide HowMany, Fat32Floor, LeastSectors, Front, FirstCluster;
    var spc := if q.spc != 0 then q.spc else FirstCluster(32, q.bps);
    Front32(q);
    Least32(q.bps, Front(q, 32), q.nft, spc);
    Fat32FloorIs(q, spc);
    AtLeastOneSector(131054, q.bps, q.nft);
  }

  lemma Front32(q: Request)
    requires q.Valid() && q.rde == 0
    ensures Front(q, 32) <= (if q.res != 0 then q.res else 1) + 31
  {
    NoRoot(q.bps);
  }

  lemma Least32(bps: nat, first: nat, nft: nat, spc: nat)
    requires SectorSize(bps)
    ensures LeastSectors(32, bps, first, nft, spc) <= first + nft + 2 * spc
  {
    HowManyLeast(32, bps * 2, 1);
    hide HowMany;
    MulLe(HowMany(32, bps * 2), 1, nft);
  }

  lemma Fat32FloorIs(q: Request, spc: nat)
    requires q.Valid() && spc == if q.spc != 0 then q.spc else FirstCluster(32, q.bps)
    ensures 1 <= spc
    ensures Fat32Floor(q) >= (if q.res != 0 then q.res else 1) + HowMany(131054, q.bps) * q.nft + 65526 * spc
  {
  }

  /** Doubling ends at the largest cluster, or where the type's largest cluster count outgrows the
      disk; and it only passes a size with which that count fits. */
  lemma {:induction false} DoublingStops(fixed: int, m: nat, bsec: nat, spc: nat)
    requires spc >= 1
    ensures var d := DoubleCluster(fixed, m, bsec, spc);
      && (d >= MAXSPC || fixed + m * d > bsec)
      && d >= spc
      && (d == spc || (d % 2 == 0 && fixed + m * (d / 2) <= bsec))
    decreases MAXSPC - spc
  {
    if spc < MAXSPC && fixed + m * spc <= bsec {
      DoublingStops(fixed, m, bsec, 2 * spc);
    }
  }

  /** Where the tool chose the cluster size, the clamp to the largest cluster count is reached only
      with the largest cluster. */
  lemma ChosenClusterAvoidsClamp(q: Request, fat: FatType)
    requires q.Valid() && q.spc == 0 && (fat == 32 ==> q.rde == 0)
    requires Succeeds(q, fat) && Plan(q, fat).spc < MAXSPC
    ensures Plan(q, fat).sizing.bsec == q.bsec
  {
    var g := Geom(q, fat);
    DoublingStops(FixedForMax(fat, q.bps, g.first, q.nft), MaxCls(fat) + 1, q.bsec, FirstCluster(fat, q.bps));
    SizingFits(g);
    if g.Clusters() > MaxCls(fat) {
      ManyClustersNeedManySectors(g);
    }
  }

  lemma ManyClustersNeedManySectors(g: Geometry)
    requires g.Valid() && g.Fits() && g.DataStart() <= g.bsec && g.Clusters() > MaxCls(g.fat)
    ensures FixedForMax(g.fat, g.bps, g.first, g.nft) + (MaxCls(g.fat) + 1) * g.spc <= g.bsec
  {
    DataHolds(g, MaxCls(g.fat) + 1);
    FatHoldsMax(g);
    MulLe(HowMany((RESFTE + MaxCls(g.fat)) * Nibbles(g.fat), g.B()), g.Spf(), g.nft);
  }

  lemma FatHoldsMax(g: Geometry)
    requires g.Valid() && g.Fits() && g.FatClusters() >= MaxCls(g.fat)
    ensures HowMany((RESFTE + MaxCls(g.fat)) * Nibbles(g.fat), g.B()) <= g.Spf()
  {
    QuotientAtLeast(g.Spf() * g.B(), Nibbles(g.fat), RESFTE + MaxCls(g.fat));
    HowManyLeast((RESFTE + MaxCls(g.fat)) * Nibbles(g.fat), g.B(), g.Spf());
  }

  /** Without a cluster size, the selector assumes 4 KiB clusters while FAT16 starts at 2 KiB. On
      sectors of up to 2 KiB a selected FAT16 still always succeeds. */
  lemma SelectedFat16SucceedsUnset(q: Request)
    requires q.Valid() && q.spc == 0 && SelectType(q) == 16 && q.bps <= 2048
    ensures Succeeds(q, 16) && Plan(q, 16).sizing.cls >= 4096
  {
    hide HowMany, Fat16Floor, LeastSectors, FirstCluster, Front;
    UnsetFloorCovers(q);
    SucceedsExactlyUnset(q, 16);
    SizingIsSound(Geom(q, 16));
  }

  lemma UnsetFloorCovers(q: Request)
    requires q.Valid() && q.spc == 0 && q.bps <= 2048
    ensures LeastSectors(16, q.bps, Front(q, 16), q.nft, FirstCluster(16, q.bps)) <= Fat16Floor(q)
  {
    var start := FirstCluster(16, q.bps);
    UnsetFloorIs(q);
    HowManyLeast(16392, q.bps * 2, 17);
    hide HowMany, Fat16Floor, FirstCluster, Front;
    MulBounds(HowMany(16392, q.bps * 2), q.nft, 17, MAXNFT);
    MulLe(0, q.nft, HowMany(12240, q.bps * 2));
  }

  lemma UnsetFloorIs(q: Request)
    requires q.Valid() && q.spc == 0 && q.bps <= 2048
    ensures var start := FirstCluster(16, q.bps);
      start >= 1 && Fat16Floor(q) == Front(q, 16) + HowMany(12240, q.bps * 2) * q.nft + 8156 * start
  {
  }

  /** On larger sectors it can fail: for each of them, a size at which the tool picks FAT16 and then
      stops for want of clusters. */
  lemma SelectedFat16CanFail(bps: nat) returns (q: Request)
    requires SectorSize(bps) && bps > 2048
    ensures q.Valid() && q.bps == bps && q.spc == 0
    ensures SelectType(q) == 16 && Plan(q, 16) == Unsized(TooFewClusters(4078))
  {
    q := Request(bps, 0, 0, 2, 0, if bps == 4096 then 4087 else if bps == 8192 then 4083 else 4082);
    if bps == 4096 {
      CanFailOn4096(q);
    } else if bps == 8192 {
      CanFailOn8192(q);
    } else if bps == 16384 {
      CanFailOn16384(q);
    } else {
      CanFailOn32768(q);
    }
  }

  /** A sizing that ends with 4078 clusters, from its estimate and the size of its FAT. */
  lemma TooFew(g: Geometry, est: nat, spf: nat)
    requires g.Valid() && g.Fits() && g.fat == 16 && g.spc == 1 && g.nft == 2 && est < 4096
    requires est * (g.B() + 8) <= g.Room() * g.B() < (est + 1) * (g.B() + 8)
    requires (spf - 1) * g.B() < (RESFTE + est) * 4 <= spf * g.B() && spf * g.B() >= 4080 * 4
    requires g.bsec - g.first - 2 * spf == 4078
    ensures SizeFat(g) == TooFewClusters(4078)
  {
    QuotientAtLeast(g.Room() * g.B(), g.ClusterCost(), est);
    QuotientAtLeast(g.Room() * g.B(), g.ClusterCost(), est + 1);
    assert g.Capped() == est;
    SpfIs(est, g.B(), spf);
    QuotientAtLeast(spf * g.B(), 4, 4080);
  }

  lemma SpfIs(est: nat, b: nat, spf: nat)
    requires b > 0 && (spf - 1) * b < (RESFTE + est) * 4 <= spf * b
    ensures HowMany((RESFTE + est) * 4, b) == spf
  {
    HowManyCeiling((RESFTE + est) * 4, b);
    HowManyLeast((RESFTE + est) * 4, b, spf);
    MulCancel(spf - 1, HowMany((RESFTE + est) * 4, b), b);
  }

  lemma CanFailOn4096(q: Request)
    requires q == Request(4096, 0, 0, 2, 0, 4087)
    ensures SelectType(q) == 16 && Plan(q, 16) == Unsized(TooFewClusters(4078))
  {
    hide SelectType, SizeFat, Geom, HowMany;
    Picked4096(q);
    TooFew(Geom(q, 16), 4076, 2);
  }

  lemma Picked4096(q: Request)
    requires q == Request(4096, 0, 0, 2, 0, 4087)
    ensures SelectType(q) == 16 && Geom(q, 16) == Geometry(16, 4096, 1, 5, 2, 4087)
  {
  }

  lemma CanFailOn8192(q: Request)
    requires q == Request(8192, 0, 0, 2, 0, 4083)
    ensures SelectType(q) == 16 && Plan(q, 16) == Unsized(TooFewClusters(4078))
  {
    hide SelectType, SizeFat, Geom, HowMany;
    Picked8192(q);
    TooFew(Geom(q, 16), 4076, 1);
  }

  lemma Picked8192(q: Request)
    requires q == Request(8192, 0, 0, 2, 0, 4083)
    ensures SelectType(q) == 16 && Geom(q, 16) == Geometry(16, 8192, 1, 3, 2, 4083)
  {
  }

  lemma CanFailOn16384(q: Request)
    requires q == Request(16384, 0, 0, 2, 0, 4082)
    ensures SelectType(q) == 16 && Plan(q, 16) == Unsized(TooFewClusters(4078))
  {
    hide SelectType, SizeFat, Geom, HowMany;
    Picked16384(q);
    TooFew(Geom(q, 16), 4077, 1);
  }

  lemma Picked16384(q: Request)
    requires q == Request(16384, 0, 0, 2, 0, 4082)
    ensures SelectType(q) == 16 && Geom(q, 16) == Geometry(16, 16384, 1, 2, 2, 4082)
  {
  }

  lemma CanFailOn32768(q: Request)
    requires q == Request(32768, 0, 0, 2, 0, 4082)
    ensures SelectType(q) == 16 && Plan(q, 16) == Unsized(TooFewClusters(4078))
  {
    hide SelectType, SizeFat, Geom, HowMany;
    Picked32768(q);
    TooFew(Geom(q, 16), 4077, 1);
  }

  lemma Picked32768(q: Request)
    requires q == Request(32768, 0, 0, 2, 0, 4082)
    ensures SelectType(q) == 16 && Geom(q, 16) == Geometry(16, 32768, 1, 2, 2, 4082)
  {
  }
}
