/** What the choice of the FAT type means: each threshold is exactly where the smaller type would be
    refused, would give up sectors, or would need larger clusters. */
module FatPick {
  import opened Arithmetic
  import opened FatLayout
  import opened FatPlan
  import opened FatSelect

  /** FATs for the largest cluster count have an entry to spare. */
  lemma FatHasSpare(fat: FatType, b: nat)
    requires b > 0 && b % 1024 == 0
    ensures (RESFTE + MaxCls(fat) + 1) * Nibbles(fat) <= HowMany((RESFTE + MaxCls(fat)) * Nibbles(fat), b) * b
  {
    var x := (RESFTE + MaxCls(fat)) * Nibbles(fat);
    HowManyCeiling(x, b);
    WholeKibis(HowMany(x, b), b);
  }

  lemma WholeKibis(h: nat, b: nat)
    requires b % 1024 == 0
    ensures h * b % 1024 == 0
  {
    var k := b / 1024;
    assert h * b == h * k * 1024;
  }

  lemma SectorNibbles(bps: nat)
    requires SectorSize(bps)
    ensures bps * 2 % 1024 == 0
  {
  }

  /** A room that holds one cluster more than the most makes the estimate ask for all FAT sectors that
      the most clusters need. */
  lemma EstimateAsksForAll(g: Geometry)
    requires g.Valid() && g.Fits()
    requires FixedForMax(g.fat, g.bps, g.first, g.nft) + (MaxCls(g.fat) + 1) * g.spc <= g.bsec
    ensures g.Spf() == HowMany((RESFTE + MaxCls(g.fat)) * Nibbles(g.fat), g.B())
  {
    var x := (RESFTE + MaxCls(g.fat)) * Nibbles(g.fat);
    var h := HowMany(x, g.B());
    HowManyCeiling(x, g.B());
    assert h >= 1 && (h - 1) * g.B() < x by {
      assert h != 0;
      OneMore(g.B(), h);
    }
    EstimateReaches(g, h);
    hide HowMany, MaxCls, Nibbles, Geometry.Estimate;
    var y := (RESFTE + g.Capped()) * Nibbles(g.fat);
    MulLe(g.Capped(), MaxCls(g.fat), Nibbles(g.fat));
    assert (h - 1) * g.B() < y <= x;
    CeilingIs(y, g.B(), h);
  }

  lemma CeilingIs(y: nat, b: nat, h: nat)
    requires b > 0 && h >= 1 && (h - 1) * b < y <= h * b
    ensures HowMany(y, b) == h
  {
    HowManyLeast(y, b, h);
    HowManyCeiling(y, b);
    hide HowMany;
    if HowMany(y, b) < h {
      MulLe(HowMany(y, b), h - 1, b);
    }
  }

  lemma EstimateReaches(g: Geometry, h: nat)
    requires g.Valid() && g.Fits() && h >= 1
    requires (h - 1) * g.B() < (RESFTE + MaxCls(g.fat)) * Nibbles(g.fat)
    requires g.first + h * g.nft + (MaxCls(g.fat) + 1) * g.spc <= g.bsec
    ensures g.Estimate() < MaxCls(g.fat) ==> (RESFTE + g.Estimate()) * Nibbles(g.fat) > (h - 1) * g.B()
  {
    var est, f, b, max := g.Estimate(), Nibbles(g.fat), g.B(), MaxCls(g.fat);
    MulLe(0, g.Room(), b);
    QuotientBounds(g.Room() * b, g.ClusterCost());
    hide Geometry.Estimate, Geometry.ClusterCost, MaxCls, Nibbles;
    if est < max && (RESFTE + est) * f <= (h - 1) * b {
      RoomTaken(est, g.spc, b, f, g.nft, h, g.Room(), max);
      assert g.ClusterCost() == g.spc * b + f * g.nft by {
        CostIs(g);
      }
      OneMoreCost(est, g.ClusterCost());
    }
  }

  lemma CostIs(g: Geometry)
    requires g.Valid()
    ensures g.ClusterCost() == g.spc * g.B() + Nibbles(g.fat) * g.nft
  {
  }

  lemma OneMoreCost(est: nat, c: nat)
    ensures (est + 1) * c == est * c + c
  {
  }

  /** One cluster more than an estimate whose entries leave out a sector of each FAT still has room. */
  lemma RoomTaken(est: nat, spc: nat, b: nat, f: nat, n: nat, h: nat, room: nat, max: nat)
    requires est < max && h >= 1 && f >= 3 && (RESFTE + est) * f <= (h - 1) * b
    requires room >= (h - 1) * n + (max + 1) * spc
    ensures (est + 1) * (spc * b + f * n) <= room * b
  {
    assert (est + 1) * (spc * b + f * n) == (est + 1) * (spc * b) + (est + 1) * (f * n);
    MulLe(0, spc, b);
    MulLe(est + 1, max + 1, spc * b);
    assert (est + 1) * (f * n) == (est + 1) * f * n;
    MulLe((est + 1) * f, (h - 1) * b, n);
    MulLe((h - 1) * n + (max + 1) * spc, room, b);
    assert ((h - 1) * n + (max + 1) * spc) * b == (h - 1) * b * n + (max + 1) * (spc * b);
  }

  /** Sectors are given up exactly where one cluster more than the type takes has room beside the FATs
      that the most clusters need: for every type, cluster size and number of FATs. */
  lemma ClampsExactly(g: Geometry)
    requires g.Valid() && g.Fits()
    ensures g.DataStart() <= g.bsec
    ensures g.Clusters() > MaxCls(g.fat) <==> FixedForMax(g.fat, g.bps, g.first, g.nft) + (MaxCls(g.fat) + 1) * g.spc <= g.bsec
  {
    SizingFits(g);
    if g.Clusters() > MaxCls(g.fat) {
      ManyClustersNeedManySectors(g);
    }
    if FixedForMax(g.fat, g.bps, g.first, g.nft) + (MaxCls(g.fat) + 1) * g.spc <= g.bsec {
      EstimateAsksForAll(g);
      SectorNibbles(g.bps);
      FatHasSpare(g.fat, g.B());
      hide HowMany, Geometry.Capped;
      QuotientAtLeast(g.bsec - g.DataStart(), g.spc, MaxCls(g.fat) + 1);
      QuotientAtLeast(g.Spf() * g.B(), Nibbles(g.fat), RESFTE + MaxCls(g.fat) + 1);
    }
  }

  lemma GivesUpExactly(q: Request, fat: FatType)
    requires q.Valid() && Succeeds(q, fat)
    ensures Plan(q, fat).sizing.bsec <= q.bsec
    ensures Plan(q, fat).sizing.bsec < q.bsec <==>
            FixedForMax(fat, q.bps, Front(q, fat), q.nft) + (MaxCls(fat) + 1) * ChosenCluster(q, fat) <= q.bsec
  {
    hide Front, ChosenCluster, FixedForMax;
    var g := Geom(q, fat);
    ClampsExactly(g);
    SizingIsSound(g);
    if g.Clusters() > MaxCls(fat) {
      ClampIsExact(g);
    }
  }

  /** The thresholds in the terms of the plans. */
  lemma Fat32FloorIsFixed(q: Request)
    requires q.Valid() && q.rde == 0
    ensures Fat32Floor(q) == FixedForMax(16, q.bps, Front(q, 16), q.nft)
                             + 65526 * (if q.spc != 0 then q.spc else HowMany(8192, q.bps))
  {
    SameNibbles(q.bps);
    assert (RESFTE + MaxCls(16)) * 2 == 131054 && (RESFTE + MaxCls(16)) * Nibbles(16) == 262108;
  }

  lemma SameNibbles(bps: nat)
    requires SectorSize(bps)
    ensures HowMany(131054, bps) == HowMany(262108, bps * 2)
  {
  }

  lemma FloorsOrdered(q: Request)
    requires q.Valid() && q.rde == 0
    ensures Fat16Floor(q) <= Fat32Floor(q)
  {
    Fat32FloorIsFixed(q);
    var cls := if q.spc != 0 then 4096 else 4078;
    var spc, spc' := if q.spc != 0 then q.spc else HowMany(4096, q.bps), if q.spc != 0 then q.spc else HowMany(8192, q.bps);
    HowManyLeast(4096, q.bps, HowMany(8192, q.bps)) by {
      HowManyCeiling(8192, q.bps);
    }
    var x := if q.spc != 0 then 16392 else 12240;
    HowManyGrows(x, 262108, q.bps * 2, q.nft);
    hide HowMany;
    MulLe(cls, 65526, spc);
    MulLe(spc, spc', 65526);
  }

  /** With a cluster size given, FAT12 is picked exactly where FAT16 would be refused. */
  lemma PicksFat12ForSize(q: Request)
    requires q.Valid() && q.spc != 0
    ensures SelectType(q) == 12 <==> !Succeeds(q, 16)
  {
    hide HowMany, Front, Plan, Fat16Floor, Fat32Floor;
    SucceedsExactly(q, 16);
    Fat16FloorIs(q);
  }

  /** And FAT32, where the root directory is not given, exactly where FAT16 would give up sectors. */
  lemma PicksFat32ForSize(q: Request)
    requires q.Valid() && q.spc != 0
    ensures SelectType(q) == 32 <==> q.rde == 0 && Succeeds(q, 16) && Plan(q, 16).sizing.bsec < q.bsec
  {
    hide HowMany, Front, Plan, Fat16Floor, Fat32Floor, FixedForMax;
    PicksFat12ForSize(q);
    if q.rde == 0 {
      Fat32FloorIsFixed(q);
      FloorsOrdered(q);
      if Succeeds(q, 16) {
        GivesUpExactly(q, 16);
      }
    }
  }

  /** Without a cluster size, FAT12 is picked exactly where it needs no clusters above 4 KiB, or a sector
      where that is larger. */
  lemma PicksFat12(q: Request)
    requires q.Valid() && q.spc == 0
    ensures SelectType(q) == 12 <==> ChosenCluster(q, 12) == HowMany(4096, q.bps)
  {
    SameFloor(q);
    hide Fat16Floor, Fat32Floor, Front, FixedForMax;
    DoublesExactly(FixedForMax(12, q.bps, Front(q, 12), q.nft), 4078, q.bsec, HowMany(4096, q.bps), HowMany(4096, q.bps));
  }

  lemma SameFloor(q: Request)
    requires q.Valid() && q.spc == 0
    ensures Fat16Floor(q) == FixedForMax(12, q.bps, Front(q, 12), q.nft) + 4078 * HowMany(4096, q.bps)
  {
    assert HowMany(12237, q.bps * 2) == HowMany(12240, q.bps * 2);
  }

  /** And FAT32, where the root directory is not given, exactly where FAT16 would need clusters above
      8 KiB, or a sector where that is larger. */
  lemma PicksFat32(q: Request)
    requires q.Valid() && q.spc == 0
    ensures SelectType(q) == 32 <==> q.rde == 0 && ChosenCluster(q, 16) > HowMany(8192, q.bps)
  {
    if q.rde == 0 {
      Fat32FloorIsFixed(q);
      FloorsOrdered(q);
      hide Fat16Floor, Fat32Floor, Front, FixedForMax;
      DoublesExactly(FixedForMax(16, q.bps, Front(q, 16), q.nft), 65526, q.bsec, HowMany(2048, q.bps), HowMany(8192, q.bps));
    }
  }

  /** Doubling passes a size exactly where that many clusters of it fit. */
  lemma DoublesExactly(fixed: int, m: nat, bsec: nat, start: nat, size: nat)
    requires ClusterSize(start) && ClusterSize(size) && start <= size < MAXSPC
    ensures DoubleCluster(fixed, m, bsec, start) > size <==> fixed + m * size <= bsec
    ensures DoubleCluster(fixed, m, bsec, start) >= start
  {
    var d := DoubleCluster(fixed, m, bsec, start);
    DoublingStops(fixed, m, bsec, start);
    DoubleClusterSize(fixed, m, bsec, start);
    hide DoubleCluster;
    if d > size {
      assert size <= d / 2;
      MulLe(size, d / 2, m);
    } else {
      MulLe(d, size, m);
    }
  }
}
