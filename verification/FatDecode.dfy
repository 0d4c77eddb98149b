/** The written image as FAT drivers decode it: every copy of the FAT, entry by entry. */
module FatDecode {
  import opened Arithmetic
  import opened Bytes
  import opened FatLayout
  import opened FatImage

  lemma {:induction false} ImageGrows(p: BootParams, x: Extras, l: nat, n: nat)
    requires p.Valid() && l <= n
    ensures Image(p, x, l) <= Image(p, x, n)
  {
    hide Sector;
    if l < n {
      ImageGrows(p, x, l, n - 1);
      assert Image(p, x, n - 1) <= Image(p, x, n);
    }
  }

  lemma ByteOfSum(a: seq<byte>, b: seq<byte>, whole: seq<byte>, i: nat)
    requires a + b <= whole && i < |b|
    ensures |a| + i < |whole| && whole[|a| + i] == b[i]
  {
    assert (a + b)[|a| + i] == b[i];
  }

  lemma ImageByte(p: BootParams, x: Extras, n: nat, l: nat, b: nat)
    requires p.Valid() && l < n && b < p.bps
    ensures l * p.bps + b < n * p.bps
    ensures Image(p, x, n)[l * p.bps + b] == Sector(p, x, l)[b]
  {
    hide Sector;
    ImageGrows(p, x, l + 1, n);
    assert Image(p, x, l + 1) == Image(p, x, l) + Sector(p, x, l);
    ByteOfSum(Image(p, x, l), Sector(p, x, l), Image(p, x, n), b);
  }

  lemma Steps(l: nat, n: nat, bps: nat)
    requires l < n
    ensures l * bps + bps <= n * bps && (n - 1) * bps + bps == n * bps
  {
    MulLe(l + 1, n, bps);
  }

  /** Sector l of the image. */
  lemma SectorWritten(p: BootParams, x: Extras, n: nat, l: nat)
    requires p.Valid() && l < n
    ensures l * p.bps + p.bps <= |Image(p, x, n)|
    ensures Slice(Image(p, x, n), l * p.bps, p.bps) == Sector(p, x, l)
  {
    hide Sector;
    ImageGrows(p, x, l + 1, n);
    assert Image(p, x, l + 1) == Image(p, x, l) + Sector(p, x, l);
    SliceOfSum(Image(p, x, l), Sector(p, x, l), Image(p, x, n));
  }

  lemma SliceOfSum(a: seq<byte>, b: seq<byte>, whole: seq<byte>)
    requires a + b <= whole
    ensures |a| + |b| <= |whole| && Slice(whole, |a|, |b|) == b
  {
  }

  /** The sectors that carry something else lie in front of the FATs or behind them. */
  predicate FatsUndisturbed(p: BootParams) {
    && p.res >= 1
    && (p.fat == 32 ==>
      && (p.bkbs != MAXU16 ==> !(p.res <= p.bkbs < p.Dir()))
      && (p.infs != MAXU16 ==> !(p.res <= p.infs < p.Dir()))
      && (p.infs != MAXU16 && p.bkbs != MAXU16 ==> !(p.res <= p.bkbs + p.infs < p.Dir())))
  }

  /** The offset of copy k of the FAT. */
  function FatOffset(p: BootParams, k: nat): nat {
    MulLe(0, k, p.FatSectors());
    MulLe(0, p.res + k * p.FatSectors(), p.bps);
    (p.res + k * p.FatSectors()) * p.bps
  }

  function FatSize(p: BootParams): nat {
    MulLe(0, p.FatSectors(), p.bps);
    p.FatSectors() * p.bps
  }

  lemma FatInside(p: BootParams, k: nat)
    requires p.Valid() && k < p.nft
    ensures FatOffset(p, k) + FatSize(p) <= p.Dir() * p.bps
  {
    MulLe(k + 1, p.nft, p.FatSectors());
    assert (k + 1) * p.FatSectors() == k * p.FatSectors() + p.FatSectors();
    MulLe(p.res + k * p.FatSectors() + p.FatSectors(), p.Dir(), p.bps);
    assert (p.res + k * p.FatSectors() + p.FatSectors()) * p.bps == FatOffset(p, k) + FatSize(p);
  }

  function FatCopy(p: BootParams, img: seq<byte>, k: nat): (r: seq<byte>)
    requires p.Valid() && k < p.nft && |img| >= p.Dir() * p.bps
    ensures |r| == FatSize(p)
  {
    FatInside(p, k);
    Slice(img, FatOffset(p, k), FatSize(p))
  }

  lemma FatCopyAt(p: BootParams, img: seq<byte>, k: nat, i: nat)
    requires p.Valid() && k < p.nft && |img| >= p.Dir() * p.bps && i < FatSize(p)
    ensures FatOffset(p, k) + i < |img| && FatCopy(p, img, k)[i] == img[FatOffset(p, k) + i]
  {
    FatInside(p, k);
  }

  /** Sector j of copy k. */
  function FatSector(p: BootParams, k: nat, j: nat): nat {
    MulLe(0, k, p.FatSectors());
    p.res + k * p.FatSectors() + j
  }

  lemma FatSectorPlace(p: BootParams, k: nat, j: nat)
    requires p.Valid() && k < p.nft && j < p.FatSectors()
    ensures p.res <= FatSector(p, k, j) < p.Dir()
    ensures j * p.bps + p.bps <= FatSize(p)
    ensures FatOffset(p, k) + j * p.bps == FatSector(p, k, j) * p.bps
  {
    SectorInside(p.res, p.nft, p.FatSectors(), k, j);
    Steps(j, p.FatSectors(), p.bps);
    ByteInside(p.res + k * p.FatSectors(), j, p.bps);
  }

  /** Byte b of sector j of copy k. */
  lemma FatCopyByte(p: BootParams, x: Extras, n: nat, k: nat, j: nat, b: nat)
    requires p.Valid() && k < p.nft && n >= p.Dir() && j < p.FatSectors() && b < p.bps
    ensures |Image(p, x, n)| >= p.Dir() * p.bps
    ensures j * p.bps + b < FatSize(p)
    ensures p.res <= FatSector(p, k, j) < p.Dir()
    ensures FatCopy(p, Image(p, x, n), k)[j * p.bps + b] == Sector(p, x, FatSector(p, k, j))[b]
  {
    hide Sector;
    MulLe(p.Dir(), n, p.bps);
    FatSectorPlace(p, k, j);
    ImageByte(p, x, n, FatSector(p, k, j), b);
    FatCopyAt(p, Image(p, x, n), k, j * p.bps + b);
  }

  lemma SectorInside(res: nat, nft: nat, f: nat, k: nat, j: nat)
    requires k < nft && j < f
    ensures res <= res + k * f + j < res + f * nft
  {
    Steps(k, nft, f);
    MulLe(0, k, f);
  }

  lemma ByteInside(l: nat, j: nat, bps: nat)
    ensures (l + j) * bps == l * bps + j * bps
  {
  }

  lemma SectorOfFat(p: BootParams, x: Extras, k: nat, j: nat, b: nat)
    requires p.Valid() && k < p.nft && j < p.FatSectors() && b < p.bps
    requires var l := FatSector(p, k, j); p.res <= l < p.Dir() && !IsBoot(p, l) && !IsInfo(p, l)
    ensures Sector(p, x, FatSector(p, k, j))[b] == FatHeadByte(p.fat, p.mid, j * p.bps + b)
  {
    hide BootSector, LabelSector, InfoSector;
    var f := p.FatSectors();
    assert (k * f + j) % f == j by {
      assert k * f + j == f * k + j;
      DivModUnique(k * f + j, f, k, j);
    }
    if j > 0 {
      MulLe(1, j, p.bps);
    }
  }

  /** A copy that nothing disturbs is a fresh FAT: its first entries, then zeros. */
  lemma CopyIsFresh(p: BootParams, x: Extras, n: nat, k: nat)
    requires p.Valid() && FatsUndisturbed(p) && k < p.nft && n >= p.Dir()
    ensures |Image(p, x, n)| >= p.Dir() * p.bps
    ensures FatCopy(p, Image(p, x, n), k) == FatHead(p.fat, p.mid, FatSize(p))
  {
    hide Sector;
    MulLe(p.Dir(), n, p.bps);
    var c := FatCopy(p, Image(p, x, n), k);
    forall i | 0 <= i < FatSize(p) ensures c[i] == FatHeadByte(p.fat, p.mid, i) {
      var j, b := i / p.bps, i % p.bps;
      SplitIndex(i, p.bps, p.FatSectors());
      FatCopyByte(p, x, n, k, j, b);
      SectorOfFat(p, x, k, j, b);
    }
  }

  lemma SplitIndex(i: nat, bps: nat, f: nat)
    requires bps > 0 && i < f * bps
    ensures 0 <= i / bps < f && 0 <= i % bps < bps && (i / bps) * bps + i % bps == i
  {
    QuotientAtLeast(i, bps, f);
    QuotientBounds(i, bps);
  }

  /** Every copy of the FAT in the image is fresh, and so they are all the same, exactly when no
      boot or information sector falls among them. */
  lemma CopiesAreFresh(p: BootParams, x: Extras, n: nat)
    requires p.Valid() && n >= p.Dir() && p.mid >= 0xf0 && p.nft >= 1
    requires p.res >= 1 && p.mid < 0x100
    ensures |Image(p, x, n)| >= p.Dir() * p.bps
    ensures (forall k :: 0 <= k < p.nft ==> FatCopy(p, Image(p, x, n), k) == FatHead(p.fat, p.mid, FatSize(p)))
            <==> FatsUndisturbed(p)
  {
    hide Sector;
    MulLe(p.Dir(), n, p.bps);
    if FatsUndisturbed(p) {
      forall k | 0 <= k < p.nft ensures FatCopy(p, Image(p, x, n), k) == FatHead(p.fat, p.mid, FatSize(p)) {
        CopyIsFresh(p, x, n, k);
      }
    } else {
      var k, j := FindIntruder(p);
      Intruder(p, x, n, k, j);
    }
  }

  lemma FindIntruder(p: BootParams) returns (k: nat, j: nat)
    requires p.Valid() && p.res >= 1 && !FatsUndisturbed(p)
    ensures k < p.nft && j < p.FatSectors()
    ensures IsBoot(p, FatSector(p, k, j)) || IsInfo(p, FatSector(p, k, j))
  {
    var l := if p.bkbs != MAXU16 && p.res <= p.bkbs < p.Dir() then p.bkbs
             else if p.res <= p.infs < p.Dir() then p.infs else p.bkbs + p.infs;
    assert IsBoot(p, l) || IsInfo(p, l);
    k, j := Locate(p, l);
  }

  lemma Locate(p: BootParams, l: nat) returns (k: nat, j: nat)
    requires p.Valid() && p.res <= l < p.Dir()
    ensures k < p.nft && j < p.FatSectors() && FatSector(p, k, j) == l
  {
    k, j := (l - p.res) / p.FatSectors(), (l - p.res) % p.FatSectors();
    SplitIndex(l - p.res, p.FatSectors(), p.nft);
  }

  /** A boot or information sector among the FATs makes the copy it falls into differ from a fresh
      FAT. */
  lemma Intruder(p: BootParams, x: Extras, n: nat, k: nat, j: nat)
    requires p.Valid() && n >= p.Dir() && 0xf0 <= p.mid < 0x100 && k < p.nft && j < p.FatSectors()
    requires IsBoot(p, FatSector(p, k, j)) || IsInfo(p, FatSector(p, k, j))
    ensures |Image(p, x, n)| >= p.Dir() * p.bps
    ensures FatCopy(p, Image(p, x, n), k) != FatHead(p.fat, p.mid, FatSize(p))
  {
    hide Sector;
    FatCopyByte(p, x, n, k, j, 0);
    FirstByte(p, x, FatSector(p, k, j));
    NotAnIntruder(p, j);
  }

  lemma FirstByte(p: BootParams, x: Extras, l: nat)
    requires p.Valid() && (IsBoot(p, l) || IsInfo(p, l))
    ensures Sector(p, x, l)[0] == 0xeb || Sector(p, x, l)[0] == 0x52
  {
    hide BootSector;
    BootStartsWithJump(p, x);
  }

  lemma NotAnIntruder(p: BootParams, j: nat)
    requires p.Valid() && j < p.FatSectors() && 0xf0 <= p.mid < 0x100
    ensures j * p.bps < FatSize(p)
    ensures FatHead(p.fat, p.mid, FatSize(p))[j * p.bps] == p.mid || FatHead(p.fat, p.mid, FatSize(p))[j * p.bps] == 0
  {
    Steps(j, p.FatSectors(), p.bps);
    if j > 0 {
      MulLe(1, j, p.bps);
    }
  }

  lemma BootStartsWithJump(p: BootParams, x: Extras)
    requires p.Valid()
    ensures BootSector(p, x)[0] == 0xeb
  {
    hide PutExt, PutCode, PutBpb, PutXBpb;
    var s := PutExt(if p.fat == 32 then PutXBpb(PutBpb(Zeros(p.bps), p), p) else PutBpb(Zeros(p.bps), p), p.fat, x);
    CodeStartsWithJump(s, p.fat, x);
  }

  lemma CodeStartsWithJump(s: seq<byte>, fat: FatType, x: Extras)
    requires |s| >= MINBPS
    ensures PutCode(s, fat, x)[0] == 0xeb
  {
    hide PadTo;
  }

  /** Bytes up to which entry n of a FAT reaches. */
  function EntryEnd(fat: FatType, n: nat): nat {
    if fat == 12 then n + n / 2 + 2 else if fat == 16 then 2 * n + 2 else 4 * n + 4
  }

  /** Entry n of a FAT, by the FAT32 File System Specification 1.03, section "FAT Data Structure". */
  function FatEntry(fat: FatType, f: seq<byte>, n: nat): nat
    requires EntryEnd(fat, n) <= |f|
  {
    if fat == 12 then
      var v := U16At(f, n + n / 2);
      if n % 2 == 1 then v / 16 else v % 0x1000
    else if fat == 16 then U16At(f, 2 * n)
    else U32At(f, 4 * n) % 0x1000_0000
  }

  /** The value that ends a chain: all ones. */
  function EndOfChain(fat: FatType): nat {
    if fat == 12 then 0xfff else if fat == 16 then 0xffff else 0xfff_ffff
  }

  /** Entry n of a fresh FAT. */
  function FreshEntry(fat: FatType, mid: nat, n: nat): int {
    if n == 0 then EndOfChain(fat) - 0xff + mid
    else if n == 1 || (n == 2 && fat == 32) then EndOfChain(fat)
    else 0
  }

  /** In a fresh FAT entry 0 holds the media byte filled up with ones, entry 1 and the FAT32 root
      directory end their chains, and every other entry is free. */
  lemma FreshEntries(fat: FatType, mid: byte, size: nat, n: nat)
    requires EntryEnd(fat, n) <= size
    ensures FatEntry(fat, FatHead(fat, mid, size), n) == FreshEntry(fat, mid, n)
  {
  }

  /** On FAT32 the four bits that are no part of an entry are zero. */
  lemma TopBitsClear(mid: byte, size: nat, n: nat)
    requires EntryEnd(32, n) <= size
    ensures U32At(FatHead(32, mid, size), 4 * n) == FreshEntry(32, mid, n)
  {
  }

  /** The most clusters that a type takes: the last one's number stays below the mark of a bad cluster,
      and on FAT16 and FAT32 comes right in front of it. */
  lemma LastClusterNumber(fat: FatType)
    ensures var last, bad := RESFTE + MaxCls(fat) - 1, EndOfChain(fat) - 8;
      && last < bad && (last + 1 == bad <==> fat != 12)
  {
  }

  /** A FAT with nibbles for an entry has the bytes a driver fetches for it, also where FAT12
      entries share a byte. */
  lemma EntryFits(fat: FatType, n: nat, size: nat)
    requires (n + 1) * Nibbles(fat) <= size * 2
    ensures EntryEnd(fat, n) <= size
  {
  }

  /** The copy of the boot sector is a copy. */
  lemma BackupBootSector(p: BootParams, x: Extras, n: nat)
    requires p.Valid() && p.fat == 32 && p.bkbs != MAXU16 && p.bkbs < n
    ensures 0 < p.bps <= |Image(p, x, n)| && p.bkbs * p.bps + p.bps <= |Image(p, x, n)|
    ensures Slice(Image(p, x, n), p.bkbs * p.bps, p.bps) == Slice(Image(p, x, n), 0, p.bps)
  {
    hide BootSector;
    SectorWritten(p, x, n, 0);
    SectorWritten(p, x, n, p.bkbs);
  }

  /** A sector of the root directory's area: the label, or nothing. */
  function RootSector(p: BootParams, x: Extras, l: nat): (r: seq<byte>)
    requires p.Valid()
    ensures |r| == p.bps
  {
    if l == p.Dir() && x.volume != [] then LabelSector(p, x) else Zeros(p.bps)
  }

  /** The root directory's area holds the label and nothing else exactly where no information sector
      falls into it. */
  lemma RootIsFresh(p: BootParams, x: Extras, n: nat, l: nat)
    requires p.Valid() && p.Dir() <= l < n && !IsBoot(p, l)
    ensures l * p.bps + p.bps <= |Image(p, x, n)|
    ensures Slice(Image(p, x, n), l * p.bps, p.bps) == RootSector(p, x, l) <==> !IsInfo(p, l)
  {
    hide InfoSector, LabelSector, BootSector;
    SectorWritten(p, x, n, l);
    InfoIsSigned(p, x, l);
  }

  lemma InfoIsSigned(p: BootParams, x: Extras, l: nat)
    requires p.Valid()
    ensures InfoSector(p)[510] != RootSector(p, x, l)[510]
  {
    hide Label;
  }
}
