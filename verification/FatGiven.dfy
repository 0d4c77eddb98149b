/** Laying out with a FAT size, or with places for the FAT32 information sector and the copy of the
    boot sector, given as options. */
module FatGiven {
  import opened Arithmetic
  import opened Bytes
  import opened FatLayout
  import opened FatPlan

  /** Zero stands for "not given". */
  datatype Given = Given(infs: nat, bkbs: nat, bspf: nat) {
    predicate Valid() {
      infs <= MAXU16 && bkbs <= MAXU16 && bspf < 0x1_0000_0000
    }
  }

  const NOTHING: Given := Given(0, 0, 0)

  /** Where the two sectors go, and the first sector free behind them. MAXU16 stands for "none". */
  datatype Places = NoPlace | Places(infs: nat, bkbs: nat, free: nat)

  function PlacesFor(fat: FatType, v: Given): Places {
    if fat != 32 then Places(v.infs, v.bkbs, 1)
    else if v.infs == 0 && v.bkbs == 1 then NoPlace
    else
      var infs := if v.infs == 0 then 1 else v.infs;
      var x := if infs != MAXU16 then infs + 1 else 1;
      if v.bkbs == 0 && x == MAXU16 then NoPlace
      else if v.bkbs != 0 && v.bkbs != MAXU16 && v.bkbs == infs then NoPlace
      else
        var bkbs := if v.bkbs == 0 then x else v.bkbs;
        Places(infs, bkbs, if bkbs != MAXU16 && x <= bkbs then bkbs + 1 else x)
  }

  /** The two sectors lie apart, behind the boot sector, where they were asked for, and the first free
      one comes right behind the later of them; and there is no place exactly for an information sector next to last, or where the two would coincide. */
  lemma PlacesApart(v: Given)
    requires v.Valid()
    ensures var p := PlacesFor(32, v);
      && (p.Places? ==>
            && 1 <= p.free <= MAXU16
            && (p.infs != MAXU16 ==> 1 <= p.infs < p.free)
            && (p.bkbs != MAXU16 ==> 1 <= p.bkbs < p.free && p.infs != p.bkbs)
            && (p.free > 1 ==> p.free - 1 == p.infs || p.free - 1 == p.bkbs)
            && (v.infs != 0 ==> p.infs == v.infs) && (v.bkbs != 0 ==> p.bkbs == v.bkbs))
      && (p.NoPlace? <==>
            || (v.bkbs == 0 && v.infs == MAXU16 - 1)
            || (v.bkbs != 0 && v.bkbs != MAXU16 && v.bkbs == if v.infs == 0 then 1 else v.infs))
  {
  }

  function ReservedFor(q: Request, fat: FatType, free: nat): (r: nat)
    requires q.Valid() && 1 <= free <= MAXU16
    ensures 1 <= r <= MAXU16
  {
    if q.res != 0 then q.res else if fat == 32 then Max(free, Fat32Alignment(q.bps)) else free
  }

  /** The request with the reserved area settled. */
  function Fixed(q: Request, fat: FatType, free: nat): (r: Request)
    requires q.Valid() && 1 <= free <= MAXU16
    ensures r.Valid() && r.res >= 1
  {
    q.(res := ReservedFor(q, fat, free))
  }

  /** Clusters that the tool takes a FAT of spf sectors to have entries for, in 32 bits. */
  function Held(g: Geometry, spf: nat): uint32
    requires g.Valid()
  {
    MulLe(0, spf, g.B());
    Sub32(U32(Quotient(spf * g.B(), Nibbles(g.fat))), RESFTE)
  }

  function CountFor(g: Geometry, spf: nat, start: nat): nat
    requires g.Valid() && start <= g.bsec
  {
    var disk := Quotient(g.bsec - start, g.spc);
    if disk > Held(g, spf) then Held(g, spf) else disk
  }

  /** The count and its limits, once the size of the FAT and the first data sector are known. */
  function Settle(g: Geometry, spf: nat, start: nat): Sizing
    requires g.Valid() && start <= g.bsec
  {
    var cls := CountFor(g, spf, start);
    if cls < MinCls(g.fat) then TooFewClusters(cls)
    else if cls > MaxCls(g.fat) then
      ClampBelow(g, spf, start);
      Sized(spf, start, MaxCls(g.fat), start + (MaxCls(g.fat) + 1) * g.spc - 1)
    else Sized(spf, start, cls, g.bsec)
  }

  lemma ClampBelow(g: Geometry, spf: nat, start: nat)
    requires g.Valid() && start <= g.bsec && CountFor(g, spf, start) > MaxCls(g.fat)
    ensures 1 <= (MaxCls(g.fat) + 1) * g.spc && start + (MaxCls(g.fat) + 1) * g.spc <= g.bsec
  {
    QuotientAtLeast(g.bsec - start, g.spc, MaxCls(g.fat) + 1);
    MulLe(1, g.spc, MaxCls(g.fat) + 1);
  }

  function SizeGiven(g: Geometry, bspf: nat): Sizing
    requires g.Valid()
  {
    MulLe(0, g.nft, bspf);
    if bspf == 0 then SizeFat(g)
    else if g.first + bspf * g.nft > g.bsec then MetadataTooBig
    else Settle(g, bspf, g.first + bspf * g.nft)
  }

  /** The computed size is settled like a given one. */
  lemma SizeFatSettles(g: Geometry)
    requires g.Valid() && g.Fits()
    ensures g.DataStart() <= g.bsec && SizeFat(g) == Settle(g, g.Spf(), g.DataStart())
  {
    SizingFits(g);
    HeldIsExact(g);
    hide Geometry.Spf, Geometry.DataStart, Held;
  }

  lemma HeldIsExact(g: Geometry)
    requires g.Valid() && g.Fits()
    ensures Held(g, g.Spf()) == g.FatClusters()
  {
    SpfSmall(g);
    FatClustersAtLeast(g);
    hide Geometry.Spf, Geometry.Capped;
    MulBounds(g.Spf(), g.B(), 0x20_0000, 65536);
    QuotientBounds(g.Spf() * g.B(), Nibbles(g.fat));
    QuotientBelow(g.Spf() * g.B(), Nibbles(g.fat), 0x20_0000, g.B());
  }

  lemma SpfSmall(g: Geometry)
    requires g.Valid() && g.Fits()
    ensures g.Spf() <= 0x20_0000 && (g.Spf() - 1) * g.B() <= 0x8000_0000
  {
    MulBounds(RESFTE + g.Capped(), Nibbles(g.fat), RESFTE + MaxCls(32), 8);
    HowManyLeast((RESFTE + g.Capped()) * Nibbles(g.fat), g.B(), 0x20_0000);
    SpfBounds(g.Capped(), Nibbles(g.fat), g.B());
  }

  lemma QuotientBelow(a: nat, f: nat, k: nat, b: nat)
    requires f >= 1 && a <= 0x8000_0000 + b && b <= 65536
    ensures Quotient(a, f) < 0x1_0000_0000
  {
    QuotientBounds(a, f);
    if Quotient(a, f) >= 0x1_0000_0000 {
      MulLe(1, f, Quotient(a, f));
    }
  }

  /** What the sizing promises holds for a given FAT size, too. */
  lemma GivenIsSound(g: Geometry, bspf: nat)
    requires g.Valid() && SizeGiven(g, bspf).Sized?
    ensures var r := SizeGiven(g, bspf);
      && r.dataStart == g.first + r.spf * g.nft
      && r.dataStart + r.cls * g.spc <= r.bsec <= g.bsec
      && (RESFTE + r.cls) * Nibbles(g.fat) <= r.spf * g.B()
      && MinCls(g.fat) <= r.cls <= MaxCls(g.fat)
      && 1 <= r.spf && (bspf != 0 ==> r.spf == bspf)
  {
    if bspf == 0 {
      SizingIsSound(g);
    } else {
      MulLe(0, g.nft, bspf);
      SettledIsSound(g, bspf, g.first + bspf * g.nft);
    }
  }

  lemma SettledIsSound(g: Geometry, spf: nat, start: nat)
    requires g.Valid() && spf >= 1 && start <= g.bsec && Settle(g, spf, start).Sized?
    ensures var r := Settle(g, spf, start);
      && r.spf == spf && r.dataStart == start && start + r.cls * g.spc <= r.bsec <= g.bsec
      && (RESFTE + r.cls) * Nibbles(g.fat) <= spf * g.B() && MinCls(g.fat) <= r.cls <= MaxCls(g.fat)
  {
    var r := Settle(g, spf, start);
    QuotientAtLeast(g.bsec - start, g.spc, r.cls);
    HeldIsHeld(g, spf, r.cls);
    if CountFor(g, spf, start) > MaxCls(g.fat) {
      ClampBelow(g, spf, start);
      OneMore(g.spc, MaxCls(g.fat) + 1);
    }
  }

  /** Cut to 32 bits or not, the count is one for which there are entries. */
  lemma HeldIsHeld(g: Geometry, spf: nat, cls: nat)
    requires g.Valid() && spf >= 1 && cls <= Held(g, spf) && cls <= MaxCls(g.fat)
    ensures (RESFTE + cls) * Nibbles(g.fat) <= spf * g.B()
  {
    MulLe(1, spf, g.B());
    var a, f := spf * g.B(), Nibbles(g.fat);
    QuotientAtLeast(a, f, 2);
    QuotientAtLeast(a, f, RESFTE + cls);
  }

  /** With a FAT size given, the sizing succeeds exactly where front, FATs and the least clusters have
      room, and the FAT has the entries; its count of entries, cut to 32 bits, can come out as 0 or 1,
      which then passes for more than 2^32 - 2. */
  lemma SizingOfGivenExactly(g: Geometry, bspf: nat)
    requires g.Valid() && bspf != 0
    ensures 0 <= bspf * g.nft && 0 <= MinCls(g.fat) * g.spc && 0 <= bspf * g.B()
    ensures var entries := Quotient(bspf * g.B(), Nibbles(g.fat)) % 0x1_0000_0000;
      SizeGiven(g, bspf).Sized? <==>
        && g.first + bspf * g.nft + MinCls(g.fat) * g.spc <= g.bsec
        && (entries < RESFTE || RESFTE + MinCls(g.fat) <= entries)
  {
    MulLe(0, g.nft, bspf);
    MulLe(0, g.spc, MinCls(g.fat));
    MulLe(0, bspf, g.B());
    var start := g.first + bspf * g.nft;
    if start <= g.bsec {
      QuotientAtLeast(g.bsec - start, g.spc, MinCls(g.fat));
    }
  }

  /** The FAT, not the disk, set the cluster count, and the sector count was left alone. */
  predicate LimitedFor(g: Geometry, spf: nat, start: nat)
    requires g.Valid() && start <= g.bsec
  {
    Held(g, spf) < Quotient(g.bsec - start, g.spc) && Held(g, spf) <= MaxCls(g.fat)
  }

  /** A reader counts the tool's clusters exactly when that is not so, for given FAT sizes and computed
      ones; and then, if the entries were counted without cutting, it finds an entry for each. */
  lemma ReaderAgreesGiven(g: Geometry, bspf: nat)
    requires g.Valid() && SizeGiven(g, bspf).Sized?
    ensures var r := SizeGiven(g, bspf);
      && r.spf >= 1 && r.dataStart <= r.bsec && r.dataStart <= g.bsec
      && (ReaderClusters(r, g.spc) == r.cls <==> !LimitedFor(g, r.spf, r.dataStart))
      && (Quotient(r.spf * g.B(), Nibbles(g.fat)) < 0x1_0000_0000 ==>
            ((RESFTE + ReaderClusters(r, g.spc)) * Nibbles(g.fat) <= r.spf * g.B() <==> !LimitedFor(g, r.spf, r.dataStart)))
  {
    hide SizeFat, Settle, LimitedFor, Held;
    GivenIsSound(g, bspf);
    var r := SizeGiven(g, bspf);
    MulLe(0, r.cls, g.spc);
    MulLe(0, r.spf, g.B());
    if bspf == 0 {
      FitsIfSized(g);
      SizeFatSettles(g);
    }
    SettledReader(g, r.spf, r.dataStart);
  }

  lemma FitsIfSized(g: Geometry)
    requires g.Valid() && SizeFat(g).Sized?
    ensures g.Fits() && SizeFat(g).spf == g.Spf() && SizeFat(g).dataStart == g.DataStart()
  {
  }

  lemma SettledReader(g: Geometry, spf: nat, start: nat)
    requires g.Valid() && spf >= 1 && start <= g.bsec && Settle(g, spf, start).Sized?
    ensures var r := Settle(g, spf, start);
      && start <= r.bsec && 0 <= spf * g.B()
      && (ReaderClusters(r, g.spc) == r.cls <==> !LimitedFor(g, spf, start))
      && (Quotient(spf * g.B(), Nibbles(g.fat)) < 0x1_0000_0000 ==>
            ((RESFTE + ReaderClusters(r, g.spc)) * Nibbles(g.fat) <= spf * g.B() <==> !LimitedFor(g, spf, start)))
  {
    MulLe(1, spf, g.B());
    var r, a, f := Settle(g, spf, start), spf * g.B(), Nibbles(g.fat);
    SettledIsSound(g, spf, start);
    QuotientAtLeast(a, f, 2);
    if CountFor(g, spf, start) > MaxCls(g.fat) {
      ClampBelow(g, spf, start);
      ClampCount(g.spc, MaxCls(g.fat));
    } else {
      QuotientAtLeast(a, f, RESFTE + ReaderClusters(r, g.spc));
    }
  }

  /** After the clamp the sectors left are one short of a cluster more. */
  lemma ClampCount(spc: nat, m: nat)
    requires spc >= 1
    ensures (m + 1) * spc >= 1 && Quotient((m + 1) * spc - 1, spc) == m
  {
    OneMore(spc, m + 1);
    MulLe(1, m + 1, spc);
    QuotientAtLeast((m + 1) * spc - 1, spc, m);
    QuotientAtLeast((m + 1) * spc - 1, spc, m + 1);
  }

  /** The tool from the choice of the type on, whatever is given. */
  function PlanGiven(q: Request, fat: FatType, v: Given): (r: Outcome)
    requires q.Valid() && v.Valid()
    ensures r.Planned? ==> r.sizing.Sized?
  {
    PlacesApart(v);
    var p := PlacesFor(fat, v);
    if p.NoPlace? then NoPlaceForSpecial
    else if q.res != 0 && q.res < p.free then TooFewReserved
    else if fat != 32 && v.bspf > MAXU16 then FatTooLong
    else
      var q' := Fixed(q, fat, p.free);
      var r := SizeGiven(Geom(q', fat), v.bspf);
      if r.Sized? then Planned(fat, ChosenCluster(q', fat), q'.res, RootSectors(RootEntries(q, fat), q.bps), r)
      else Unsized(r)
  }

  /** With nothing given this is the plan. */
  lemma NothingGiven(q: Request, fat: FatType)
    requires q.Valid()
    ensures PlanGiven(q, fat, NOTHING) == Plan(q, fat)
  {
    hide SizeFat, GrownCluster, RootSectors;
    assert PlacesFor(fat, NOTHING) == if fat == 32 then Places(1, 2, 3) else Places(0, 0, 1);
    assert ReservedFor(q, fat, MinReserved(fat)) == Reserved(q, fat);
    assert Front(Fixed(q, fat, MinReserved(fat)), fat) == Front(q, fat);
  }
}
