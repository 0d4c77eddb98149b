/** The image of a fresh file system: what each sector holds, and the loop that writes the sectors. */
module FatImage {
  import opened Arithmetic
  import opened Bytes
  import opened FatLayout

  const MINBPS: int := 512
  const DOSMAGIC: int := 0xaa55
  const BOOTCODE: seq<byte> := [
    0xfa, 0x31, 0xc0, 0x8e, 0xd0, 0xbc, 0x00, 0x7c, 0xfb, 0x8e, 0xd8, 0xe8, 0x00, 0x00, 0x5e, 0x83,
    0xc6, 0x19, 0xbb, 0x07, 0x00, 0xfc, 0xac, 0x84, 0xc0, 0x74, 0x06, 0xb4, 0x0e, 0xcd, 0x10, 0xeb,
    0xf5, 0x30, 0xe4, 0xcd, 0x16, 0xcd, 0x19, 0x0d, 0x0a]
    + [0x4e, 0x6f, 0x6e, 0x2d, 0x73, 0x79, 0x73, 0x74, 0x65, 0x6d, 0x20, 0x64, 0x69, 0x73, 0x6b, 0x0d, 0x0a]
    + [0x50, 0x72, 0x65, 0x73, 0x73, 0x20, 0x61, 0x6e, 0x79, 0x20, 0x6b, 0x65, 0x79, 0x20, 0x74, 0x6f,
       0x20, 0x72, 0x65, 0x62, 0x6f, 0x6f, 0x74, 0x0d, 0x0a, 0x00]

  /** The parameter block once it is settled. */
  datatype BootParams = BootParams(
    fat: FatType,
    bps: uint32, spc: uint32, res: uint32, nft: uint32, rde: uint32, sec: uint32, mid: uint32, spf: uint32,
    spt: uint32, hds: uint32, hid: uint32, bsec: uint32, bspf: uint32, rdcl: uint32, infs: uint32, bkbs: uint32)
  {
    /** Sectors of one FAT. */
    function FatSectors(): uint32 {
      if spf != 0 then spf else bspf
    }

    /** The first sector behind the FATs. */
    function Dir(): nat {
      MulLe(0, FatSectors(), nft);
      res + FatSectors() * nft
    }

    function RootSize(): nat
      requires bps >= MINBPS
    {
      if fat == 32 then spc else HowMany(rde, bps / DIR_ENTRY)
    }

    /** Sectors the tool writes. */
    function Total(): nat
      requires bps >= MINBPS
    {
      Dir() + RootSize()
    }

    predicate Valid() {
      && SectorSize(bps)
      && FatSectors() >= 1
      && infs <= MAXU16 && bkbs <= MAXU16
    }
  }

  /** What else goes into the image: the volume ID, the time stamp of the label, and the strings. */
  datatype Extras = Extras(volid: uint32, time: uint16, date: uint16, oem: seq<byte>, volume: seq<byte>)

  /** A C string padded with blanks or cut to n bytes. */
  function PadTo(src: seq<byte>, n: nat): (r: seq<byte>)
    ensures |r| == n
    ensures forall i :: 0 <= i < n ==> r[i] == if i < |src| then src[i] else 0x20
  {
    if n == 0 then [] else if src == [] then [0x20] + PadTo([], n - 1) else [src[0]] + PadTo(src[1..], n - 1)
  }

  function Upper(c: byte): byte {
    if 0x61 <= c <= 0x7a then c - 0x20 else c
  }

  /** A volume label: 11 upper-case bytes, never starting with the mark of a deleted entry. */
  function Label(src: seq<byte>): (r: seq<byte>)
    ensures |r| == 11 && r[0] != 0xe5
  {
    var padded := PadTo(src, 11);
    seq(11, i requires 0 <= i < 11 => if i == 0 && padded[i] == 0xe5 then 5 else Upper(padded[i]))
  }

  method SetStr(dest: array<byte>, off: nat, src: seq<byte>, len: nat)
    requires off + len <= dest.Length
    modifies dest
    ensures dest[..] == Splice(old(dest[..]), off, PadTo(src, len))
  {
    ghost var padded := PadTo(src, len);
    for i := 0 to len
      invariant forall k :: 0 <= k < dest.Length ==>
        dest[k] == if off <= k < off + i then padded[k - off] else old(dest[k])
    {
      dest[off + i] := if i < |src| then src[i] else 0x20;
    }
  }

  method MkLabel(dest: array<byte>, off: nat, src: seq<byte>)
    requires off + 11 <= dest.Length
    modifies dest
    ensures dest[..] == Splice(old(dest[..]), off, Label(src))
  {
    ghost var name := Label(src);
    for i := 0 to 11
      invariant forall k :: 0 <= k < dest.Length ==>
        dest[k] == if off <= k < off + i then name[k - off] else old(dest[k])
    {
      var c := if i < |src| then Upper(src[i]) else 0x20;
      dest[off + i] := if i == 0 && c == 0xe5 then 5 else c;
    }
  }

  /** The fields common to all FAT types, at offset 11. */
  function PutBpb(s: seq<byte>, p: BootParams): (r: seq<byte>)
    requires |s| >= MINBPS
    ensures |r| == |s|
  {
    var s1 := Put2(Put1(Put2(Put1(Put2(s, 11, p.bps), 13, p.spc), 14, p.res), 16, p.nft), 17, p.rde);
    var s2 := Put2(Put2(Put2(Put1(Put2(s1, 19, p.sec), 21, p.mid), 22, p.spf), 24, p.spt), 26, p.hds);
    Put4(Put4(s2, 28, p.hid), 32, p.bsec)
  }

  /** The fields of FAT32 only, at offset 36. */
  function PutXBpb(s: seq<byte>, p: BootParams): (r: seq<byte>)
    requires |s| >= MINBPS
    ensures |r| == |s|
  {
    Put2(Put2(Put4(Put2(Put2(Put4(s, 36, p.bspf), 40, 0), 42, 0), 44, p.rdcl), 48, p.infs), 50, p.bkbs)
  }

  function FatName(fat: FatType): seq<byte> {
    [0x46, 0x41, 0x54] + if fat == 12 then [0x31, 0x32] else if fat == 16 then [0x31, 0x36] else [0x33, 0x32]
  }

  const NO_NAME: seq<byte> := [0x4e, 0x4f, 0x20, 0x4e, 0x41, 0x4d, 0x45]
  const OEM: seq<byte> := [0x42, 0x53, 0x44, 0x20, 0x20, 0x34, 0x2e, 0x34]

  /** Where the extension with the volume ID starts, and where the boot code does. */
  function ExtOffset(fat: FatType): nat {
    if fat == 32 then 64 else 36
  }

  function CodeOffset(fat: FatType): nat {
    ExtOffset(fat) + 26
  }

  function PutExt(s: seq<byte>, fat: FatType, x: Extras): (r: seq<byte>)
    requires |s| >= MINBPS
    ensures |r| == |s|
  {
    var at := ExtOffset(fat);
    Splice(Splice(Put4(Put1(s, at + 2, 0x29), at + 3, x.volid), at + 7, Label(if x.volume != [] then x.volume else NO_NAME)),
           at + 18, PadTo(FatName(fat), 8))
  }

  function PutCode(s: seq<byte>, fat: FatType, x: Extras): (r: seq<byte>)
    requires |s| >= MINBPS
    ensures |r| == |s|
  {
    var jump := Put1(Put1(Put1(s, 0, 0xeb), 1, CodeOffset(fat) - 2), 2, 0x90);
    var oem := Splice(jump, 3, PadTo(if x.oem != [] then x.oem else OEM, 8));
    Put2(Splice(oem, CodeOffset(fat), BOOTCODE), MINBPS - 2, DOSMAGIC)
  }

  function BootSector(p: BootParams, x: Extras): (r: seq<byte>)
    requires p.Valid()
    ensures |r| == p.bps
  {
    var s := PutBpb(Zeros(p.bps), p);
    PutCode(PutExt(if p.fat == 32 then PutXBpb(s, p) else s, p.fat, x), p.fat, x)
  }

  function InfoSector(p: BootParams): (r: seq<byte>)
    requires p.Valid()
    ensures |r| == p.bps && r[0] == 0x52
  {
    Put2(Put4(Put4(Put4(Put4(Zeros(p.bps), 0, 0x41615252), MINBPS - 28, 0x61417272), MINBPS - 24, 0xffff_ffff),
              MINBPS - 20, p.rdcl), MINBPS - 2, DOSMAGIC)
  }

  /** The reserved entries that start a FAT, and on FAT32 the root directory's only cluster. */
  function FatHeadSize(fat: FatType): nat {
    fat * (if fat == 32 then 3 else 2) / 8
  }

  function FatHeadByte(fat: FatType, mid: uint32, i: nat): byte {
    if i == 0 then mid % 0x100
    else if i < FatHeadSize(fat) then (if fat == 32 && i % 4 == 3 then 0x0f else 0xff)
    else 0
  }

  /** The bytes of a fresh FAT of n bytes. */
  function FatHead(fat: FatType, mid: uint32, n: nat): (r: seq<byte>)
    ensures |r| == n
    ensures forall i :: 0 <= i < n ==> r[i] == FatHeadByte(fat, mid, i)
  {
    seq(n, i requires i >= 0 => FatHeadByte(fat, mid, i))
  }

  function LabelSector(p: BootParams, x: Extras): (r: seq<byte>)
    requires p.Valid()
    ensures |r| == p.bps
  {
    Put2(Put2(Put1(Splice(Zeros(p.bps), 0, Label(x.volume)), 11, 0x28), 22, x.time), 24, x.date)
  }

  predicate IsBoot(p: BootParams, lsn: nat) {
    lsn == 0 || (p.fat == 32 && p.bkbs != MAXU16 && lsn == p.bkbs)
  }

  predicate IsInfo(p: BootParams, lsn: nat) {
    p.fat == 32 && p.infs != MAXU16 && (lsn == p.infs || (p.bkbs != MAXU16 && lsn == p.bkbs + p.infs))
  }

  function Sector(p: BootParams, x: Extras, lsn: nat): (r: seq<byte>)
    requires p.Valid()
    ensures |r| == p.bps
  {
    if IsBoot(p, lsn) then BootSector(p, x)
    else if IsInfo(p, lsn) then InfoSector(p)
    else if p.res <= lsn < p.Dir() && (lsn - p.res) % p.FatSectors() == 0 then FatHead(p.fat, p.mid, p.bps)
    else if lsn == p.Dir() && x.volume != [] then LabelSector(p, x)
    else Zeros(p.bps)
  }

  /** The first n sectors, one behind the other. */
  function Image(p: BootParams, x: Extras, n: nat): (r: seq<byte>)
    requires p.Valid()
    ensures |r| == n * p.bps
  {
    if n == 0 then [] else Image(p, x, n - 1) + Sector(p, x, n - 1)
  }
}
