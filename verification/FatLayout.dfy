/** The arithmetic of a FAT file system's layout, over unbounded integers: the FAT type the tool
    picks, the size of the FATs, the clusters that are left, and why the three agree. The module
    FatFormat computes the same numbers in 32- and 64-bit machine words. */
module FatLayout {
  import opened Arithmetic

  const MAXU16: int := 0xffff
  const MAXSPC: int := 128
  const MAXNFT: int := 16
  const DEFBLK: int := 4096
  const DEFBLK16: int := 2048
  const DEFRDE: int := 512
  const RESFTE: int := 2
  const DIR_ENTRY: int := 32

  type FatType = f: int | f == 12 || f == 16 || f == 32 witness 12

  function MinCls(fat: FatType): nat {
    if fat == 12 then 1 else if fat == 16 then 0x1000 else 2
  }

  function MaxCls(fat: FatType): nat {
    if fat == 12 then 0xfed else if fat == 16 then 0xfff5 else 0xffffff5
  }

  /** Nibbles of one FAT entry. */
  function Nibbles(fat: FatType): nat {
    fat / 4
  }

  predicate SectorSize(bps: int) {
    bps == 512 || bps == 1024 || bps == 2048 || bps == 4096 || bps == 8192 || bps == 16384 || bps == 32768
  }

  predicate ClusterSize(spc: int) {
    spc == 1 || spc == 2 || spc == 4 || spc == 8 || spc == 16 || spc == 32 || spc == 64 || spc == 128
  }

  function Quotient(x: nat, y: nat): nat
    requires y > 0
  {
    x / y
  }

  lemma {:induction false} QuotientBounds(x: nat, y: nat)
    requires y > 0
    ensures Quotient(x, y) * y <= x < Quotient(x, y) * y + y
  {
    assert x == (x / y) * y + x % y;
  }

  function HowMany(x: nat, y: nat): (r: nat)
    requires y > 0
  {
    Quotient(x + (y - 1), y)
  }

  /** HowMany rounds up: the least r with x <= r * y. */
  lemma HowManyCeiling(x: nat, y: nat)
    requires y > 0
    ensures x <= HowMany(x, y) * y < x + y
  {
    QuotientBounds(x + (y - 1), y);
  }

  /** A quotient reaches q exactly when q divisors fit. */
  lemma QuotientAtLeast(a: nat, b: nat, q: nat)
    requires b > 0
    ensures q <= Quotient(a, b) <==> q * b <= a
  {
    QuotientBounds(a, b);
    if q <= Quotient(a, b) {
      MulLe(q, Quotient(a, b), b);
    } else {
      MulLe(Quotient(a, b) + 1, q, b);
    }
  }

  lemma HowManyLeast(x: nat, y: nat, k: nat)
    requires y > 0 && x <= k * y
    ensures HowMany(x, y) <= k
  {
    HowManyCeiling(x, y);
    assert (HowMany(x, y) - 1) * y == HowMany(x, y) * y - y;
    MulCancel(HowMany(x, y) - 1, k, y);
  }

  /** What the options and the device give the tool; bps has passed the power-of-two and range
      checks. Zero stands for "not given". */
  datatype Request = Request(bps: nat, spc: nat, res: nat, nft: nat, rde: nat, bsec: nat) {
    predicate Valid() {
      && SectorSize(bps)
      && (spc == 0 || ClusterSize(spc))
      && res <= MAXU16
      && 1 <= nft <= MAXNFT
      && rde <= MAXU16
      && bsec < 0x1_0000_0000
    }
  }

  function RootSectors(rde: nat, bps: nat): nat
    requires SectorSize(bps)
  {
    HowMany(rde, bps / DIR_ENTRY)
  }

  /** Sectors below which the tool gives up on FAT16 and makes a FAT12. */
  function Fat16Floor(q: Request): int
    requires q.Valid()
  {
    var cls := if q.spc != 0 then MinCls(16) else MaxCls(12) + 1;
    var nibbles := if q.spc != 0 then 4 else 3;
    (if q.res != 0 then q.res else 1)
    + HowMany((RESFTE + cls) * nibbles, q.bps * 2) * q.nft
    + RootSectors(if q.rde != 0 then q.rde else DEFRDE, q.bps)
    + cls * (if q.spc != 0 then q.spc else HowMany(DEFBLK, q.bps))
  }

  /** Sectors from which the tool makes a FAT32, unless a root directory size was asked for. */
  function Fat32Floor(q: Request): int
    requires q.Valid()
  {
    (if q.res != 0 then q.res else 1)
    + HowMany((RESFTE + MaxCls(16)) * 2, q.bps) * q.nft
    + RootSectors(DEFRDE, q.bps)
    + (MaxCls(16) + 1) * (if q.spc != 0 then q.spc else HowMany(8192, q.bps))
  }

  function SelectType(q: Request): FatType
    requires q.Valid()
  {
    if q.bsec < Fat16Floor(q) then 12
    else if q.rde != 0 || q.bsec < Fat32Floor(q) then 16
    else 32
  }

  /** The numbers from which the FATs are sized: `first` sectors lie before the FATs and after
      them before cluster 2 (reserved sectors and root directory). */
  datatype Geometry = Geometry(fat: FatType, bps: nat, spc: nat, first: nat, nft: nat, bsec: nat) {
    predicate Valid() {
      && SectorSize(bps)
      && ClusterSize(spc)
      && 1 <= nft <= MAXNFT
      && first < 0x4_0000
      && bsec < 0x1_0000_0000
    }

    /** Nibbles of one sector. */
    function B(): nat {
      bps * 2
    }

    /** Whether the reserved area, the root directory and one sector for each FAT fit. */
    predicate Fits() {
      first + nft <= bsec
    }

    /** Sectors left when each FAT has one sector. */
    function Room(): nat
      requires Fits()
    {
      bsec - first - nft
    }

    /** Nibbles one cluster takes up: its spc sectors and its entry in each FAT. */
    function ClusterCost(): (c: nat)
      requires Valid()
      ensures c >= 1024
    {
      MulLe(1, spc, B());
      MulLe(0, Nibbles(fat), nft);
      spc * B() + Nibbles(fat) * nft
    }

    /** The estimate of the cluster count. */
    function Estimate(): nat
      requires Valid() && Fits()
    {
      MulLe(0, Room(), B());
      Quotient(Room() * B(), ClusterCost())
    }

    function Capped(): nat
      requires Valid() && Fits()
    {
      if Estimate() < MaxCls(fat) then Estimate() else MaxCls(fat)
    }

    /** Sectors of one FAT. */
    function Spf(): nat
      requires Valid() && Fits()
    {
      HowMany((RESFTE + Capped()) * Nibbles(fat), B())
    }

    /** The first sector of cluster 2. */
    function DataStart(): nat
      requires Valid() && Fits()
    {
      MulLe(0, Spf(), nft);
      first + Spf() * nft
    }

    /** Clusters that fit on the disk behind the FATs. */
    function DiskClusters(): nat
      requires Valid() && Fits() && DataStart() <= bsec
    {
      Quotient(bsec - DataStart(), spc)
    }

    /** Clusters that have an entry in a FAT of Spf() sectors. */
    function FatClusters(): int
      requires Valid() && Fits()
    {
      MulLe(0, Spf(), B());
      Quotient(Spf() * B(), Nibbles(fat)) - RESFTE
    }

    function Clusters(): int
      requires Valid() && Fits() && DataStart() <= bsec
    {
      if DiskClusters() > FatClusters() then FatClusters() else DiskClusters()
    }
  }

  datatype Sizing =
    | MetadataTooBig
    | TooFewClusters(found: int)
    | Sized(spf: nat, dataStart: nat, cls: nat, bsec: nat)

  /** The whole sizing step, with its two failures and the clamp to the largest cluster count. */
  function SizeFat(g: Geometry): Sizing
    requires g.Valid()
  {
    if !g.Fits() then MetadataTooBig else
    SizingFits(g);
    var cls := g.Clusters();
    if cls < MinCls(g.fat) then TooFewClusters(cls)
    else if cls > MaxCls(g.fat) then
      Sized(g.Spf(), g.DataStart(), MaxCls(g.fat), g.DataStart() + (MaxCls(g.fat) + 1) * g.spc - 1)
    else Sized(g.Spf(), g.DataStart(), cls, g.bsec)
  }

  /** The heart of the sizing. The estimate divides the room by what a cluster costs, but the FAT
      is then rounded up to whole sectors, and its two reserved entries were never paid for. Both
      errors are smaller than one sector for each FAT, because (2 * 8 - 1) * 16 nibbles are fewer
      than a sector holds, and one sector for each FAT had been set aside. */
  lemma EstimateIsAffordable(room: nat, n: nat, b: nat, f: nat, spc: nat, y: nat, spf: nat)
    requires 1 <= n <= MAXNFT && b >= 1024 && 1 <= f <= 8
    requires y * (spc * b + f * n) <= room * b
    requires spf >= 1 && (spf - 1) * b <= (RESFTE + y) * f - 1
    ensures (spf - 1) * n + y * spc <= room
  {
    var extra := spf - 1;
    FatOverhead(n, b, f, y, extra);
    Distribute(y, spc, b, f * n);
    assert extra * n * b + y * spc * b == (extra * n + y * spc) * b;
    assert (extra * n + y * spc) * b < (room + 1) * b;
    MulCancel(extra * n + y * spc, room + 1, b);
  }

  lemma FatOverhead(n: nat, b: nat, f: nat, y: nat, extra: nat)
    requires 1 <= n <= MAXNFT && 1 <= f <= 8
    requires extra * b <= (RESFTE + y) * f - 1
    ensures extra * n * b <= y * (f * n) + 240
  {
    MulLe(extra * b, (RESFTE + y) * f - 1, n);
    assert extra * b * n == extra * n * b;
    assert ((RESFTE + y) * f - 1) * n == y * (f * n) + (2 * f - 1) * n;
    MulLe(2 * f - 1, 15, n);
  }

  lemma Distribute(y: nat, spc: nat, b: nat, c: nat)
    ensures y * (spc * b + c) == y * spc * b + y * c
  {
    assert y * (spc * b) == y * spc * b;
  }

  lemma SpfBounds(y: nat, f: nat, b: nat)
    requires 1 <= f && b > 0
    ensures var spf := HowMany((RESFTE + y) * f, b);
      spf >= 1 && (spf - 1) * b <= (RESFTE + y) * f - 1 && (RESFTE + y) * f <= spf * b
  {
    var spf := HowMany((RESFTE + y) * f, b);
    MulLe(1, f, RESFTE + y);
    HowManyCeiling((RESFTE + y) * f, b);
    MulCancel(0, spf, b);
    assert (spf - 1) * b == spf * b - b;
  }

  lemma EstimateFits(g: Geometry)
    requires g.Valid() && g.Fits()
    ensures g.Capped() * g.ClusterCost() <= g.Room() * g.B()
  {
    MulLe(0, g.Room(), g.B());
    QuotientBounds(g.Room() * g.B(), g.ClusterCost());
    MulLe(g.Capped(), g.Estimate(), g.ClusterCost());
  }

  /** The computed FATs never reach past the end of the disk, and behind them lies room for at
      least the estimated clusters. */
  lemma FatsFit(g: Geometry)
    requires g.Valid() && g.Fits()
    ensures g.Spf() >= 1
    ensures g.DataStart() + g.Capped() * g.spc <= g.bsec
    ensures g.DataStart() <= g.bsec
  {
    EstimateFits(g);
    SpfBounds(g.Capped(), Nibbles(g.fat), g.B());
    EstimateIsAffordable(g.Room(), g.nft, g.B(), Nibbles(g.fat), g.spc, g.Capped(), g.Spf());
    OneMore(g.nft, g.Spf());
    MulLe(0, g.Capped(), g.spc);
  }

  lemma OneMore(n: int, k: int)
    ensures k * n == n + (k - 1) * n
  {
  }

  /** The final cluster count is never below the capped estimate. */
  lemma SizingFits(g: Geometry)
    requires g.Valid() && g.Fits()
    ensures g.DataStart() <= g.bsec
    ensures g.Capped() <= g.DiskClusters()
    ensures g.Capped() <= g.FatClusters()
  {
    FatsFit(g);
    QuotientAtLeast(g.bsec - g.DataStart(), g.spc, g.Capped());
    FatClustersAtLeast(g);
  }

  lemma FatClustersAtLeast(g: Geometry)
    requires g.Valid() && g.Fits()
    ensures g.Capped() <= g.FatClusters()
  {
    SpfBounds(g.Capped(), Nibbles(g.fat), g.B());
    QuotientAtLeast(g.Spf() * g.B(), Nibbles(g.fat), RESFTE + g.Capped());
  }
}
