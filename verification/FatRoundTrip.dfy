/** From the request to the reader: what a driver finds in the image of a planned file system. */
module FatRoundTrip {
  import opened Arithmetic
  import opened Bytes
  import opened FatLayout
  import opened FatPlan
  import opened FatSelect
  import opened FatImage
  import opened FatReader
  import opened FatDecode
  import opened FatFormat
  import opened FatGiven

  /** The options that are not part of the layout. */
  datatype Labels = Labels(hid: uint32, mid: uint32, spt: uint32, hds: uint32) {
    /** The media byte is not given, or a legal one. */
    predicate Valid() {
      mid == 0 || 0xf0 <= mid < 0x100
    }
  }

  /** The plan for the type comes out; the special sectors are a matter of FAT32 only. */
  predicate Plannable(q: Request, v: Given, fat: FatType) {
    && q.Valid() && v.Valid() && (if fat == 32 then q.rde == 0 else v.infs == 0 && v.bkbs == 0)
    && PlanGiven(q, fat, v).Planned?
  }

  function Params(q: Request, v: Given, fat: FatType, o: Labels): (p: BootParams)
    requires Plannable(q, v, fat)
    ensures p.Valid()
  {
    PlanBounds(q, fat, v);
    PlannedParams(q, v, PlanGiven(q, fat, v), o.hid, o.mid, o.spt, o.hds)
  }

  /** The planned block is settled, and describes the planned layout. */
  lemma PlanSettles(q: Request, v: Given, fat: FatType, o: Labels)
    requires Plannable(q, v, fat) && o.Valid()
    ensures var r, p := PlanGiven(q, fat, v), Params(q, v, fat, o);
      && Settled(p, r.sizing.bsec) && 0xf0 <= p.mid
      && TrueLayout(p, r.sizing.bsec)
         == Layout(q.bps, r.spc, q.nft, r.sizing.bsec, r.sizing.spf, r.rds, r.sizing.dataStart)
  {
    hide PlanGiven, Quotient, PlacesFor;
    PlanBounds(q, fat, v);
    PlanDataStart(q, v, fat);
  }

  lemma PlanDataStart(q: Request, v: Given, fat: FatType)
    requires Plannable(q, v, fat)
    ensures var r := PlanGiven(q, fat, v);
      && r.fat == fat && r.rds == RootSectors(RootEntries(q, fat), q.bps) <= 4096
      && r.sizing.dataStart == r.res + r.rds + r.sizing.spf * q.nft
  {
    hide SizeGiven, ChosenCluster, HowMany;
    PlacesApart(v);
    GivenIsSound(Geom(Fixed(q, fat, PlacesFor(fat, v).free), fat), v.bspf);
    RootSectorsBound(RootEntries(q, fat), q.bps);
  }

  function ReaderSees(q: Request, v: Given, fat: FatType, o: Labels, x: Extras): Layout
    requires Plannable(q, v, fat)
  {
    ReadLayout(BootSector(Params(q, v, fat, o), x))
  }

  /** A reader of the boot sector recovers the planned layout, except for a sector count lost when
      hidden and total sectors together wrap to a 16-bit number. */
  lemma LayoutRoundTrip(q: Request, v: Given, fat: FatType, o: Labels, x: Extras)
    requires Plannable(q, v, fat) && o.Valid()
    ensures var r, l := PlanGiven(q, fat, v), ReaderSees(q, v, fat, o, x);
      && l == Layout(q.bps, r.spc, q.nft, l.total, r.sizing.spf, r.rds, r.sizing.dataStart)
      && (l.total == r.sizing.bsec <==> !(Add32(o.hid, r.sizing.bsec) <= MAXU16 < r.sizing.bsec))
  {
    hide BootSector, ReadLayout, PlanGiven;
    PlanSettles(q, v, fat, o);
    ReaderRecoversLayout(Params(q, v, fat, o), x, PlanGiven(q, fat, v).sizing.bsec);
  }

  /** The bytes of the boot sector say what was asked for, and the defaults for the rest: places for the
      special sectors, 512 root entries, and for the media byte F8 behind hidden sectors and F0 without. */
  predicate SaysAsked(s: seq<byte>, q: Request, v: Given, fat: FatType, o: Labels)
    requires |s| >= 512
  {
    && U16At(s, 11) == q.bps && s[16] == q.nft
    && (q.spc != 0 ==> s[13] == q.spc)
    && (if q.res != 0 then U16At(s, 14) == q.res else fat == 32 ==> U16At(s, 14) >= 4 && U16At(s, 14) * q.bps >= 16384)
    && U16At(s, 17) == (if fat == 32 then 0 else if q.rde != 0 then q.rde else 512)
    && s[21] == (if o.mid != 0 then o.mid else if o.hid == 0 then 0xf0 else 0xf8)
    && (v.bspf != 0 ==> (if fat == 32 then U32At(s, 36) else U16At(s, 22)) == v.bspf)
    && U16At(s, 24) == o.spt % 0x1_0000 && U16At(s, 26) == o.hds % 0x1_0000 && U32At(s, 28) == o.hid
    && (fat == 32 ==>
          && U32At(s, 44) == 2
          && U16At(s, 48) == (if v.infs != 0 then v.infs else 1)
          && (v.bkbs != 0 ==> U16At(s, 50) == v.bkbs)
          && (v.bkbs == 0 ==> U16At(s, 50) == if v.infs == MAXU16 then 1 else if v.infs == 0 then 2 else v.infs + 1))
  }

  lemma OptionsRoundTrip(q: Request, v: Given, fat: FatType, o: Labels, x: Extras)
    requires Plannable(q, v, fat) && o.Valid()
    ensures SaysAsked(BootSector(Params(q, v, fat, o), x), q, v, fat, o)
  {
    hide BootSector, SizeGiven, Quotient, ChosenCluster, RootSectors, U16At, U32At, ReservedFor, PlacesFor;
    PlanSettles(q, v, fat, o);
    PlacesApart(v);
    DefaultPlaces(v);
    PlanKeepsSizes(q, v, fat);
    BootFields(Params(q, v, fat, o), x);
  }

  lemma DefaultPlaces(v: Given)
    requires v.Valid() && PlacesFor(32, v).Places?
    ensures var p := PlacesFor(32, v);
      && p.infs == (if v.infs != 0 then v.infs else 1)
      && (v.bkbs != 0 ==> p.bkbs == v.bkbs)
      && (v.bkbs == 0 ==> p.bkbs == if v.infs == MAXU16 then 1 else if v.infs == 0 then 2 else v.infs + 1)
  {
  }

  lemma PlanKeepsSizes(q: Request, v: Given, fat: FatType)
    requires Plannable(q, v, fat)
    ensures var r := PlanGiven(q, fat, v);
      && (q.spc != 0 ==> r.spc == q.spc)
      && (if q.res != 0 then r.res == q.res else fat == 32 ==> r.res >= 4 && r.res * q.bps >= 16384)
      && (v.bspf != 0 ==> r.sizing.spf == v.bspf)
  {
    PlacesApart(v);
    GivenIsSound(PlannedGeometry(q, v, fat), v.bspf);
    hide SizeGiven, Quotient, RootSectors, PlacesFor;
    if q.res == 0 && fat == 32 {
      CoversAlignment(PlanGiven(q, fat, v).res, q.bps);
    }
  }

  lemma CoversAlignment(res: nat, bps: nat)
    requires SectorSize(bps) && res >= Fat32Alignment(bps)
    ensures res >= 4 && res * bps >= 16384
  {
    MulLe(Fat32Alignment(bps), res, bps);
  }

  /** What is written ends where the data starts, and on FAT32 behind the whole first cluster, which is
      the root directory. */
  lemma ImageCovers(q: Request, v: Given, fat: FatType, o: Labels)
    requires Plannable(q, v, fat) && o.Valid()
    ensures var r := PlanGiven(q, fat, v);
      Params(q, v, fat, o).Total() == r.sizing.dataStart + if fat == 32 then r.spc else 0
  {
    hide PlanGiven, Settled;
    PlanSettles(q, v, fat, o);
    NoRoot(q.bps);
    PlanKeepsRoot(q, v, fat, o);
  }

  lemma PlanKeepsRoot(q: Request, v: Given, fat: FatType, o: Labels)
    requires Plannable(q, v, fat)
    ensures var p, r := Params(q, v, fat, o), PlanGiven(q, fat, v);
      p.fat == fat && p.bps == q.bps && p.spc == r.spc && p.rde == RootEntries(q, fat) && (fat == 32 ==> p.rde == 0)
  {
    PlanBounds(q, fat, v);
    hide PlanGiven, PlacesFor, Blockable;
  }

  /** The geometry that a plan is about. */
  function PlannedGeometry(q: Request, v: Given, fat: FatType): (g: Geometry)
    requires Plannable(q, v, fat)
    ensures g.Valid()
  {
    PlacesApart(v);
    Geom(Fixed(q, fat, PlacesFor(fat, v).free), fat)
  }

  /** A reader of the layout counts the clusters of the sizing exactly where the FAT did not limit them. */
  predicate CountsAlike(l: Layout, s: Sizing, g: Geometry)
    requires s.Sized? && g.Valid()
  {
    && l.dataStart <= l.total && l.spc > 0 && s.dataStart <= g.bsec
    && (Quotient(l.total - l.dataStart, l.spc) == s.cls <==> !LimitedFor(g, s.spf, s.dataStart))
  }

  /** So it is for the boot sector's reader, its sector count not lost. */
  lemma ClusterCountRoundTrip(q: Request, v: Given, fat: FatType, o: Labels, x: Extras)
    requires Plannable(q, v, fat) && o.Valid()
    requires ReaderSees(q, v, fat, o, x).total == PlanGiven(q, fat, v).sizing.bsec
    ensures CountsAlike(ReaderSees(q, v, fat, o, x), PlanGiven(q, fat, v).sizing, PlannedGeometry(q, v, fat))
  {
    hide BootSector, ReadLayout, SizeGiven, ReaderSees, Quotient, LimitedFor, ChosenCluster, RootSectors;
    LayoutRoundTrip(q, v, fat, o, x);
    PlacesApart(v);
    ReaderAgreesGiven(PlannedGeometry(q, v, fat), v.bspf);
  }

  /** Such an image exists: 70000 sectors behind 4294901760 hidden ones, for which the tool picks
      FAT16. The reader finds 4464 sectors. */
  lemma SectorCountCanBeLost(x: Extras)
    ensures var q, o := Request(512, 2, 0, 2, 0, 70000), Labels(0xffff_0000, 0, 0, 0);
      && q.Valid() && SelectType(q) == 16 && Plannable(q, NOTHING, 16) && o.Valid()
      && PlanGiven(q, 16, NOTHING).sizing == Sized(137, 307, 34846, 70000)
      && ReaderSees(q, NOTHING, 16, o, x).total == 4464
  {
    hide BootSector, PlanGiven, SelectType, ReadLayout, Settled, TrueLayout;
    var q, o := Request(512, 2, 0, 2, 0, 70000), Labels(0xffff_0000, 0, 0, 0);
    LostPlan(q);
    PlanSettles(q, NOTHING, 16, o);
    LostFields(q, o);
    ReadsShort(Params(q, NOTHING, 16, o), x);
  }

  lemma LostPlan(q: Request)
    requires q == Request(512, 2, 0, 2, 0, 70000)
    ensures SelectType(q) == 16 && PlanGiven(q, 16, NOTHING) == Planned(16, 2, 1, 32, Sized(137, 307, 34846, 70000))
  {
    NothingGiven(q, 16);
    hide PlanGiven;
    assert Geom(q, 16) == Geometry(16, 512, 2, 33, 2, 70000);
    LostSizing(Geom(q, 16));
    hide SizeFat;
  }

  lemma LostFields(q: Request, o: Labels)
    requires Plannable(q, NOTHING, 16) && o.Valid() && o.hid == 0xffff_0000
    requires PlanGiven(q, 16, NOTHING).sizing.bsec == 70000
    ensures FieldsFit(Params(q, NOTHING, 16, o)) && Params(q, NOTHING, 16, o).sec == 70000
  {
    hide PlanGiven, TrueLayout;
    PlanSettles(q, NOTHING, 16, o);
  }

  /** A sector count that is stored in 16 bits reads back cut to them. */
  lemma ReadsShort(p: BootParams, x: Extras)
    requires FieldsFit(p) && p.sec % 0x1_0000 != 0
    ensures ReadLayout(BootSector(p, x)).total == p.sec % 0x1_0000
  {
    hide BootSector, FieldsFit;
    BootFields(p, x);
  }

  lemma LostSizing(g: Geometry)
    requires g == Geometry(16, 512, 2, 33, 2, 70000)
    ensures SizeFat(g) == Sized(137, 307, 34846, 70000)
  {
    assert g.Estimate() == 34846;
  }

  /** The copy of the information sector falls among the FATs. */
  predicate InfoHitsFat(p: BootParams) {
    p.fat == 32 && p.infs != MAXU16 && p.bkbs != MAXU16 && p.res <= p.bkbs + p.infs < p.Dir()
  }

  /** All copies of the FAT are fresh exactly when the second information sector, which goes as far
      behind the copy of the boot sector as the first one is behind the boot sector, does not fall
      among them: the tool checks the places of the other special sectors only. */
  lemma FatsRoundTrip(q: Request, v: Given, fat: FatType, o: Labels, x: Extras)
    requires Plannable(q, v, fat) && o.Valid()
    ensures var p := Params(q, v, fat, o);
      && p.Valid() && |Image(p, x, p.Total())| >= p.Dir() * p.bps
      && ((forall k :: 0 <= k < p.nft ==> FatCopy(p, Image(p, x, p.Total()), k) == FatHead(fat, p.mid, FatSize(p)))
          <==> !InfoHitsFat(p))
  {
    hide Image, FatHead, PlanGiven, FatCopy, Quotient, PlacesFor;
    var p := Params(q, v, fat, o);
    PlanSettles(q, v, fat, o);
    PlanBounds(q, fat, v);
    CopiesAreFresh(p, x, p.Total());
  }

  /** With nothing given that is the case exactly for a FAT32 with the three reserved sectors that the
      tool accepts as the least. */
  lemma DefaultInfoHits(q: Request, fat: FatType, o: Labels)
    requires Plannable(q, NOTHING, fat) && o.Valid()
    ensures InfoHitsFat(Params(q, NOTHING, fat, o)) <==> fat == 32 && q.res == 3
  {
    hide SizeGiven, ChosenCluster, RootSectors;
    var p := Params(q, NOTHING, fat, o);
    PlanBounds(q, fat, NOTHING);
    OneFatSector(p);
  }

  /** The tool does accept three reserved sectors: a FAT32 of 1000 sectors whose FATs are not fresh. */
  lemma ThreeReservedAccepted(x: Extras)
    ensures var q, o := Request(512, 1, 3, 2, 0, 1000), Labels(0, 0, 0, 0);
      && Plannable(q, NOTHING, 32) && o.Valid()
      && (var p := Params(q, NOTHING, 32, o);
          && p.Valid() && |Image(p, x, p.Total())| >= p.Dir() * p.bps
          && exists k :: 0 <= k < p.nft && FatCopy(p, Image(p, x, p.Total()), k) != FatHead(32, p.mid, FatSize(p)))
  {
    hide Image, FatHead, ChosenCluster, FatCopy, Plan, PlanGiven;
    var q, o := Request(512, 1, 3, 2, 0, 1000), Labels(0, 0, 0, 0);
    SucceedsExactly(q, 32);
    ThreeReservedRoom(q);
    NothingGiven(q, 32);
    FatsRoundTrip(q, NOTHING, 32, o, x);
    DefaultInfoHits(q, 32, o);
  }

  lemma ThreeReservedRoom(q: Request)
    requires q == Request(512, 1, 3, 2, 0, 1000)
    ensures q.bsec >= LeastSectors(32, q.bps, Front(q, 32), q.nft, ChosenCluster(q, 32))
  {
    Least32(512, Front(q, 32), 2, 1);
    NoRoot(512);
  }

  lemma OneFatSector(p: BootParams)
    requires p.Valid() && p.nft >= 1
    ensures p.Dir() > p.res
  {
    MulLe(1, p.FatSectors(), p.nft);
  }

  /** The copy of the information sector falls into the root directory's area. */
  predicate InfoHitsRoot(p: BootParams)
    requires p.Valid()
  {
    p.fat == 32 && p.infs != MAXU16 && p.bkbs != MAXU16 && p.Dir() <= p.bkbs + p.infs < p.Total()
  }

  /** Sector l of an image of n sectors. */
  function SectorAt(p: BootParams, x: Extras, n: nat, l: nat): seq<byte>
    requires p.Valid() && l < n
  {
    Steps(l, n, p.bps);
    Slice(Image(p, x, n), l * p.bps, p.bps)
  }

  /** The root directory's area holds the label and nothing else exactly when that does not happen. */
  lemma RootRoundTrip(q: Request, v: Given, fat: FatType, o: Labels, x: Extras)
    requires Plannable(q, v, fat) && o.Valid()
    ensures var p := Params(q, v, fat, o);
      (forall l :: p.Dir() <= l < p.Total() ==> SectorAt(p, x, p.Total(), l) == RootSector(p, x, l)) <==> !InfoHitsRoot(p)
  {
    hide Image, PlanGiven, PlacesFor, RootSector, BootParams.Total;
    var p := Params(q, v, fat, o);
    PlanBounds(q, fat, v);
    forall l | p.Dir() <= l < p.Total() ensures SectorAt(p, x, p.Total(), l) == RootSector(p, x, l) <==> !IsInfo(p, l) {
      OnlyCopyInRoot(p, l);
      RootIsFresh(p, x, p.Total(), l);
    }
    forall l | p.Dir() <= l < p.Total() ensures IsInfo(p, l) ==> InfoHitsRoot(p) && l == p.bkbs + p.infs {
      OnlyCopyInRoot(p, l);
    }
    if InfoHitsRoot(p) {
      assert IsInfo(p, p.bkbs + p.infs);
    }
  }

  lemma OnlyCopyInRoot(p: BootParams, l: nat)
    requires p.Valid() && p.res >= 1 && p.Dir() <= l
    requires p.fat == 32 && p.infs != MAXU16 ==> p.infs < p.res
    requires p.fat == 32 && p.bkbs != MAXU16 ==> p.bkbs < p.res
    ensures !IsBoot(p, l)
    ensures IsInfo(p, l) <==> p.fat == 32 && p.infs != MAXU16 && p.bkbs != MAXU16 && l == p.bkbs + p.infs
  {
    MulLe(0, p.FatSectors(), p.nft);
  }

  /** It does happen: a FAT32 of 1150 sectors with the special sectors at 20 and 21. All FATs are fresh,
      and the root directory's only cluster is an information sector. */
  lemma InfoCanHitRoot(x: Extras)
    ensures var q, v, o := Request(512, 1, 0, 1, 0, 1150), Given(20, 21, 0), Labels(0, 0, 0, 0);
      && Plannable(q, v, 32) && o.Valid()
      && PlanGiven(q, 32, v) == Planned(32, 1, 32, 0, Sized(9, 41, 1109, 1150))
      && (var p := Params(q, v, 32, o);
          && p.Dir() == 41 && p.Total() == 42 && InfoHitsRoot(p) && !InfoHitsFat(p)
          && SectorAt(p, x, 42, 41) == InfoSector(p))
  {
    hide Image, InfoSector;
    var q, v, o := Request(512, 1, 0, 1, 0, 1150), Given(20, 21, 0), Labels(0, 0, 0, 0);
    RootPlan(q, v);
    hide PlanGiven;
    var p := Params(q, v, 32, o);
    SectorWritten(p, x, 42, 41);
  }

  lemma RootPlan(q: Request, v: Given)
    requires q == Request(512, 1, 0, 1, 0, 1150) && v == Given(20, 21, 0)
    ensures PlanGiven(q, 32, v) == Planned(32, 1, 32, 0, Sized(9, 41, 1109, 1150))
  {
    assert PlacesFor(32, v) == Places(20, 21, 22);
    var g := Geom(Fixed(q, 32, 22), 32);
    assert g == Geometry(32, 512, 1, 32, 1, 1150);
    assert g.Estimate() == 1108;
  }

  /** Every cluster the tool counts has an entry in the FAT, and the entry says that it is free;
      entries 0 and 1 are reserved, and on FAT32 entry 2 ends the root directory. */
  lemma ClustersAreFree(q: Request, v: Given, fat: FatType, o: Labels, n: nat)
    requires Plannable(q, v, fat) && o.Valid() && n < PlanGiven(q, fat, v).sizing.cls + RESFTE
    ensures var p := Params(q, v, fat, o);
      && EntryEnd(fat, n) <= FatSize(p)
      && 0xf0 <= p.mid < 0x100
      && FatEntry(fat, FatHead(fat, p.mid, FatSize(p)), n) == FreshEntry(fat, p.mid, n)
  {
    hide PlanGiven, FatHead, FatEntry, EntryEnd;
    var p := Params(q, v, fat, o);
    PlanSettles(q, v, fat, o);
    EntryInFat(q, v, fat, o, n);
    FreshEntries(fat, p.mid, FatSize(p), n);
  }

  lemma EntryInFat(q: Request, v: Given, fat: FatType, o: Labels, n: nat)
    requires Plannable(q, v, fat) && n < PlanGiven(q, fat, v).sizing.cls + RESFTE
    ensures EntryEnd(fat, n) <= FatSize(Params(q, v, fat, o))
  {
    hide SizeGiven, ChosenCluster, Quotient, HowMany, EntryEnd, Nibbles;
    var p := Params(q, v, fat, o);
    PlacesApart(v);
    PlanBounds(q, fat, v);
    NibblesInFat(Geom(Fixed(q, fat, PlacesFor(fat, v).free), fat), v.bspf, n);
    EntryFits(fat, n, FatSize(p));
  }

  lemma NibblesInFat(g: Geometry, bspf: uint32, n: nat)
    requires g.Valid() && SizeGiven(g, bspf).Sized? && n < SizeGiven(g, bspf).cls + RESFTE
    ensures (n + 1) * Nibbles(g.fat) <= SizeGiven(g, bspf).spf * g.bps * 2
  {
    hide SizeGiven;
    var r := SizeGiven(g, bspf);
    GivenIsSound(g, bspf);
    MulLe(n + 1, RESFTE + r.cls, Nibbles(g.fat));
    assert r.spf * g.B() == r.spf * g.bps * 2;
  }

  lemma CopyOnDisk(p: BootParams, x: Extras, before: seq<byte>, after: seq<byte>, k: nat)
    requires ImageWritten(before, after, x, p) && k < p.nft && |Image(p, x, p.Total())| >= p.Dir() * p.bps
    ensures |after| >= p.Dir() * p.bps
    ensures FatCopy(p, after, k) == FatCopy(p, Image(p, x, p.Total()), k)
  {
    hide Image;
    FatInside(p, k);
    PrefixSlice(Image(p, x, p.Total()), after, FatOffset(p, k), FatSize(p));
  }

  lemma PrefixSlice(s: seq<byte>, t: seq<byte>, off: nat, n: nat)
    requires s <= t && off + n <= |s|
    ensures Slice(t, off, n) == Slice(s, off, n)
  {
    assert t[off..off + n] == s[off..off + n];
  }

  /** On the disk: in every copy of the FAT, the entry of every cluster that the tool counts says that
      the cluster is free. */
  lemma WrittenClustersAreFree(q: Request, v: Given, fat: FatType, o: Labels, x: Extras,
                               before: seq<byte>, after: seq<byte>, k: nat, n: nat)
    requires Plannable(q, v, fat) && o.Valid() && !InfoHitsFat(Params(q, v, fat, o))
    requires ImageWritten(before, after, x, Params(q, v, fat, o))
    requires k < q.nft && n < PlanGiven(q, fat, v).sizing.cls + RESFTE
    ensures var p := Params(q, v, fat, o);
      && p.Valid() && k < p.nft && |after| >= p.Dir() * p.bps && EntryEnd(fat, n) <= FatSize(p)
      && FatEntry(fat, FatCopy(p, after, k), n) == FreshEntry(fat, p.mid, n)
  {
    hide Image, FatHead, PlanGiven, FatCopy, Quotient, ImageWritten, FatEntry, EntryEnd, InfoHitsFat;
    var p := Params(q, v, fat, o);
    FatsRoundTrip(q, v, fat, o, x);
    CopyOnDisk(p, x, before, after, k);
    ClustersAreFree(q, v, fat, o, n);
  }
}
