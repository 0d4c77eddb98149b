/** The sector-writing loop: one buffer, refilled and written for every sector. */
module FatWriter {
  import opened Arithmetic
  import opened Bytes
  import opened FatLayout
  import opened FatImage
  import opened Storage

  method Mk1(img: array<byte>, off: nat, x: uint32)
    requires off + 1 <= img.Length
    modifies img
    ensures img[..] == Put1(old(img[..]), off, x)
  {
    img[off] := x % 0x100;
  }

  method Mk2(img: array<byte>, off: nat, x: uint32)
    requires off + 2 <= img.Length
    modifies img
    ensures img[..] == Put2(old(img[..]), off, x)
  {
    img[off] := x % 0x100;
    img[off + 1] := x / 0x100 % 0x100;
  }

  method Mk4(img: array<byte>, off: nat, x: uint32)
    requires off + 4 <= img.Length
    modifies img
    ensures img[..] == Put4(old(img[..]), off, x)
  {
    Mk2(img, off, x);
    Mk2(img, off + 2, x / 0x1_0000);
  }

  method MemCpy(img: array<byte>, off: nat, src: seq<byte>)
    requires off + |src| <= img.Length
    modifies img
    ensures img[..] == Splice(old(img[..]), off, src)
  {
    forall i | 0 <= i < |src| {
      img[off + i] := src[i];
    }
  }

  method Clear(img: array<byte>)
    modifies img
    ensures img[..] == Zeros(img.Length)
  {
    forall i | 0 <= i < img.Length {
      img[i] := 0;
    }
  }

  method MkBpb(img: array<byte>, p: BootParams)
    requires img.Length >= MINBPS
    modifies img
    ensures img[..] == PutBpb(old(img[..]), p)
  {
    Mk2(img, 11, p.bps);
    Mk1(img, 13, p.spc);
    Mk2(img, 14, p.res);
    Mk1(img, 16, p.nft);
    Mk2(img, 17, p.rde);
    Mk2(img, 19, p.sec);
    Mk1(img, 21, p.mid);
    Mk2(img, 22, p.spf);
    Mk2(img, 24, p.spt);
    Mk2(img, 26, p.hds);
    Mk4(img, 28, p.hid);
    Mk4(img, 32, p.bsec);
  }

  method MkXBpb(img: array<byte>, p: BootParams)
    requires img.Length >= MINBPS
    modifies img
    ensures img[..] == PutXBpb(old(img[..]), p)
  {
    Mk4(img, 36, p.bspf);
    Mk2(img, 40, 0);
    Mk2(img, 42, 0);
    Mk4(img, 44, p.rdcl);
    Mk2(img, 48, p.infs);
    Mk2(img, 50, p.bkbs);
  }

  method MkBootSector(img: array<byte>, p: BootParams, x: Extras)
    requires p.Valid() && img.Length == p.bps && img[..] == Zeros(p.bps)
    modifies img
    ensures img[..] == BootSector(p, x)
  {
    MkBpb(img, p);
    if p.fat == 32 {
      MkXBpb(img, p);
    }
    MkExt(img, p.fat, x);
    MkCode(img, p.fat, x);
  }

  method MkExt(img: array<byte>, fat: FatType, x: Extras)
    requires img.Length >= MINBPS
    modifies img
    ensures img[..] == PutExt(old(img[..]), fat, x)
  {
    var at := ExtOffset(fat);
    Mk1(img, at + 2, 0x29);
    Mk4(img, at + 3, x.volid);
    MkLabel(img, at + 7, if x.volume != [] then x.volume else NO_NAME);
    SetStr(img, at + 18, FatName(fat), 8);
  }

  method MkCode(img: array<byte>, fat: FatType, x: Extras)
    requires img.Length >= MINBPS
    modifies img
    ensures img[..] == PutCode(old(img[..]), fat, x)
  {
    hide Put1, Put2, Splice, PadTo;
    Mk1(img, 0, 0xeb);
    Mk1(img, 1, CodeOffset(fat) - 2);
    Mk1(img, 2, 0x90);
    SetStr(img, 3, if x.oem != [] then x.oem else OEM, 8);
    MemCpy(img, CodeOffset(fat), BOOTCODE);
    Mk2(img, MINBPS - 2, DOSMAGIC);
  }

  method MkInfoSector(img: array<byte>, p: BootParams)
    requires p.Valid() && img.Length == p.bps && img[..] == Zeros(p.bps)
    modifies img
    ensures img[..] == InfoSector(p)
  {
    Mk4(img, 0, 0x41615252);
    Mk4(img, MINBPS - 28, 0x61417272);
    Mk4(img, MINBPS - 24, 0xffff_ffff);
    Mk4(img, MINBPS - 20, p.rdcl);
    Mk2(img, MINBPS - 2, DOSMAGIC);
  }

  method MkFatHead(img: array<byte>, p: BootParams)
    requires p.Valid() && img.Length == p.bps && img[..] == Zeros(p.bps)
    modifies img
    ensures img[..] == FatHead(p.fat, p.mid, p.bps)
  {
    Mk1(img, 0, p.mid);
    for x := 1 to FatHeadSize(p.fat)
      invariant forall i :: 0 <= i < img.Length ==> img[i] == if i < x then FatHeadByte(p.fat, p.mid, i) else 0
    {
      img[x] := if p.fat == 32 && x % 4 == 3 then 0x0f else 0xff;
    }
  }

  method MkLabelSector(img: array<byte>, p: BootParams, x: Extras)
    requires p.Valid() && img.Length == p.bps && img[..] == Zeros(p.bps)
    modifies img
    ensures img[..] == LabelSector(p, x)
  {
    MkLabel(img, 0, x.volume);
    Mk1(img, 11, 0x28);
    Mk2(img, 22, x.time);
    Mk2(img, 24, x.date);
  }

  method FillSector(img: array<byte>, p: BootParams, x: Extras, lsn: nat)
    requires p.Valid() && img.Length == p.bps
    modifies img
    ensures img[..] == Sector(p, x, lsn)
  {
    Clear(img);
    if lsn == 0 || (p.fat == 32 && p.bkbs != MAXU16 && lsn == p.bkbs) {
      MkBootSector(img, p, x);
    } else if p.fat == 32 && p.infs != MAXU16 && (lsn == p.infs || (p.bkbs != MAXU16 && lsn == p.bkbs + p.infs)) {
      MkInfoSector(img, p);
    } else if p.res <= lsn && lsn < p.Dir() && (lsn - p.res) % p.FatSectors() == 0 {
      MkFatHead(img, p);
    } else if lsn == p.Dir() && x.volume != [] {
      MkLabelSector(img, p, x);
    }
  }

  /** n sectors, one write each, in order. */
  function Sectorwise(n: nat, bps: nat): (r: seq<Extent>)
    ensures |r| == n && forall i :: 0 <= i < n ==> r[i].size == bps && r[i].off == i * bps
  {
    if n == 0 then []
    else
      MulLe(0, bps, n - 1);
      Sectorwise(n - 1, bps) + [Extent((n - 1) * bps, bps)]
  }

  /** One pass of the loop: refill the buffer, write it behind the sectors before. */
  method WriteSector(img: array<byte>, p: BootParams, x: Extras, lsn: nat, disk: Disk, pos: nat, ghost was: seq<byte>)
    requires p.Valid() && img.Length == p.bps && img != disk.data
    requires pos == lsn * p.bps && pos + p.bps <= |was|
    requires disk.Contents() == Image(p, x, lsn) + was[pos..]
    modifies img, disk`log, disk.data
    ensures disk.Contents() == Image(p, x, lsn + 1) + was[pos + p.bps..]
    ensures disk.log == old(disk.log) + [Extent(pos, p.bps)]
  {
    hide Sector, Image, Splice, BootParams.Valid;
    FillSector(img, p, x, lsn);
    disk.WriteAt(pos, img[..]);
    OneMoreSector(p, x, lsn, was, pos, img[..]);
  }

  /** Write the reserved area, the FATs and the root directory, in order and each sector once. */
  method WriteImage(p: BootParams, x: Extras, disk: Disk)
    requires p.Valid() && p.Total() * p.bps <= disk.data.Length
    modifies disk`log, disk.data
    ensures disk.Contents() == Image(p, x, p.Total()) + old(disk.Contents())[p.Total() * p.bps..]
    ensures disk.log == old(disk.log) + Sectorwise(p.Total(), p.bps)
  {
    hide BootParams.Total, Image, Sectorwise;
    ghost var was := disk.Contents();
    var img := new byte[p.bps];
    var pos := 0;
    NoSectors(p, x, was);
    ghost var log := disk.log;
    for lsn := 0 to p.Total()
      invariant pos == lsn * p.bps <= |was|
      invariant disk.Contents() == Image(p, x, lsn) + was[pos..]
      invariant disk.log == log + Sectorwise(lsn, p.bps)
    {
      Advance(lsn, p.Total(), p.bps);
      NextSector(log, lsn, p.bps);
      WriteSector(img, p, x, lsn, disk, pos, was);
      pos := pos + p.bps;
    }
  }

  lemma NoSectors(p: BootParams, x: Extras, was: seq<byte>)
    requires p.Valid()
    ensures Image(p, x, 0) + was[0..] == was && Sectorwise(0, p.bps) == []
  {
  }

  lemma NextSector(log: seq<Extent>, n: nat, bps: nat)
    ensures 0 <= n * bps && log + Sectorwise(n + 1, bps) == log + Sectorwise(n, bps) + [Extent(n * bps, bps)]
  {
    MulLe(0, bps, n);
  }

  lemma OneMoreSector(p: BootParams, x: Extras, lsn: nat, was: seq<byte>, pos: nat, img: seq<byte>)
    requires p.Valid() && img == Sector(p, x, lsn) && pos == lsn * p.bps && pos + p.bps <= |was|
    ensures Splice(Image(p, x, lsn) + was[pos..], pos, img) == Image(p, x, lsn + 1) + was[pos + p.bps..]
  {
    hide Sector;
    SpliceAtSeam(Image(p, x, lsn), was[pos..], img);
    assert was[pos..][p.bps..] == was[pos + p.bps..];
  }

  lemma Advance(lsn: nat, total: nat, bps: nat)
    requires lsn < total
    ensures lsn * bps + bps == (lsn + 1) * bps <= total * bps
  {
    MulLe(lsn + 1, total, bps);
  }
}
