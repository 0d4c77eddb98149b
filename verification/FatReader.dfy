/** The reader's side: the layout a driver derives from the boot sector, and the FAT entries it
    finds in the image. */
module FatReader {
  import opened Arithmetic
  import opened Bytes
  import opened FatLayout
  import opened FatImage

  /** The layout that the boot sector's bytes tell, by the FAT32 File System Specification 1.03,
      section "Boot Sector and BPB": a 16-bit field that is zero defers to its 32-bit twin. */
  datatype Layout = Layout(bps: nat, spc: nat, nft: nat, total: nat, fatSectors: nat, rootSectors: nat, dataStart: nat)

  function ReadLayout(s: seq<byte>): Layout
    requires |s| >= MINBPS
  {
    var bps := U16At(s, 11);
    var spf := if U16At(s, 22) != 0 then U16At(s, 22) else U32At(s, 36);
    var rds := if bps == 0 then 0 else (U16At(s, 17) * 32 + (bps - 1)) / bps;
    MulLe(0, spf, s[16]);
    Layout(bps, s[13], s[16], if U16At(s, 19) != 0 then U16At(s, 19) else U32At(s, 32), spf, rds,
           U16At(s, 14) + spf * s[16] + rds)
  }

  /** Every field has the room its value needs. */
  predicate FieldsFit(p: BootParams) {
    && p.Valid()
    && p.spc < 0x100 && p.nft < 0x100 && p.mid < 0x100
    && p.res <= MAXU16 && p.rde <= MAXU16 && p.spf <= MAXU16
  }

  lemma BpbFields(s: seq<byte>, p: BootParams)
    requires |s| >= MINBPS
    ensures var r := PutBpb(s, p);
      && U16At(r, 11) == p.bps % 0x1_0000 && r[13] == p.spc % 0x100 && U16At(r, 14) == p.res % 0x1_0000
      && r[16] == p.nft % 0x100 && U16At(r, 17) == p.rde % 0x1_0000 && U16At(r, 19) == p.sec % 0x1_0000
      && r[21] == p.mid % 0x100 && U16At(r, 22) == p.spf % 0x1_0000
      && U16At(r, 24) == p.spt % 0x1_0000 && U16At(r, 26) == p.hds % 0x1_0000
      && U32At(r, 28) == p.hid && U32At(r, 32) == p.bsec
      && forall i :: 0 <= i < |s| && !(11 <= i < 36) ==> r[i] == s[i]
  {
  }

  lemma XBpbFields(s: seq<byte>, p: BootParams)
    requires |s| >= MINBPS
    ensures var r := PutXBpb(s, p);
      && U32At(r, 36) == p.bspf && U16At(r, 40) == 0 && U16At(r, 42) == 0 && U32At(r, 44) == p.rdcl
      && U16At(r, 48) == p.infs % 0x1_0000 && U16At(r, 50) == p.bkbs % 0x1_0000
      && forall i :: 0 <= i < |s| && !(36 <= i < 64) ==> r[i] == s[i]
  {
  }

  /** The rest of the boot sector lies around the parameter block. */
  lemma RestOfSector(s: seq<byte>, fat: FatType, x: Extras)
    requires |s| >= MINBPS
    ensures var r := PutCode(PutExt(s, fat, x), fat, x);
      && (forall i :: 11 <= i < ExtOffset(fat) ==> r[i] == s[i])
      && U16At(r, 510) == DOSMAGIC
  {
  }

  /** The parameter block of the boot sector. */
  function Block(p: BootParams): (r: seq<byte>)
    requires p.Valid()
    ensures |r| == p.bps
  {
    var s := PutBpb(Zeros(p.bps), p);
    if p.fat == 32 then PutXBpb(s, p) else s
  }

  lemma BlockSurvives(p: BootParams, x: Extras)
    requires p.Valid()
    ensures forall i :: 11 <= i < ExtOffset(p.fat) ==> BootSector(p, x)[i] == Block(p)[i]
    ensures U16At(BootSector(p, x), 510) == DOSMAGIC
  {
    hide PutBpb, PutXBpb, PutExt, PutCode;
    assert BootSector(p, x) == PutCode(PutExt(Block(p), p.fat, x), p.fat, x);
    RestOfSector(Block(p), p.fat, x);
  }

  predicate CommonFields(s: seq<byte>, p: BootParams)
    requires |s| >= MINBPS
  {
    && U16At(s, 11) == p.bps && s[13] == p.spc && U16At(s, 14) == p.res && s[16] == p.nft
    && U16At(s, 17) == p.rde && U16At(s, 19) == p.sec % 0x1_0000 && s[21] == p.mid
    && U16At(s, 22) == p.spf && U16At(s, 24) == p.spt % 0x1_0000 && U16At(s, 26) == p.hds % 0x1_0000
    && U32At(s, 28) == p.hid && U32At(s, 32) == p.bsec
  }

  predicate Fat32Fields(s: seq<byte>, p: BootParams)
    requires |s| >= MINBPS
  {
    && U32At(s, 36) == p.bspf && U16At(s, 40) == 0 && U16At(s, 42) == 0 && U32At(s, 44) == p.rdcl
    && U16At(s, 48) == p.infs && U16At(s, 50) == p.bkbs
  }

  lemma CommonWritten(s: seq<byte>, p: BootParams)
    requires FieldsFit(p) && |s| >= MINBPS
    ensures CommonFields(PutBpb(s, p), p)
  {
    hide PutBpb;
    BpbFields(s, p);
  }

  lemma Fat32Written(s: seq<byte>, p: BootParams)
    requires FieldsFit(p) && |s| >= MINBPS && CommonFields(s, p)
    ensures CommonFields(PutXBpb(s, p), p) && Fat32Fields(PutXBpb(s, p), p)
  {
    hide PutXBpb;
    XBpbFields(s, p);
  }

  lemma BlockFields(p: BootParams)
    requires FieldsFit(p)
    ensures CommonFields(Block(p), p)
    ensures p.fat == 32 ==> Fat32Fields(Block(p), p)
  {
    hide PutBpb, PutXBpb;
    var s := PutBpb(Zeros(p.bps), p);
    CommonWritten(Zeros(p.bps), p);
    if p.fat == 32 {
      Fat32Written(s, p);
    }
  }

  /** What the boot sector says, field by field. */
  lemma BootFields(p: BootParams, x: Extras)
    requires FieldsFit(p)
    ensures CommonFields(BootSector(p, x), p)
    ensures p.fat == 32 ==> Fat32Fields(BootSector(p, x), p)
    ensures U16At(BootSector(p, x), 510) == DOSMAGIC
  {
    hide BootSector, Block;
    BlockSurvives(p, x);
    BlockFields(p);
    SameFields(Block(p), BootSector(p, x), p);
  }

  lemma SameFields(a: seq<byte>, b: seq<byte>, p: BootParams)
    requires |a| == |b| >= MINBPS && forall i :: 11 <= i < ExtOffset(p.fat) ==> b[i] == a[i]
    ensures CommonFields(b, p) == CommonFields(a, p)
    ensures p.fat == 32 ==> Fat32Fields(b, p) == Fat32Fields(a, p)
  {
  }

  /** The tool counts root directory sectors in entries, the standard in bytes. */
  lemma RootSectorsAgree(rde: nat, bps: nat)
    requires SectorSize(bps)
    ensures (rde * 32 + (bps - 1)) / bps == RootSectors(rde, bps)
  {
    var k := bps / DIR_ENTRY;
    assert bps == 32 * k;
    HowManyCeiling(rde, k);
    var r := RootSectors(rde, bps);
    assert r * bps == 32 * (r * k);
    FloorIs(rde * 32 + (bps - 1), bps, r);
  }

  lemma FloorIs(a: nat, b: nat, q: nat)
    requires b > 0 && q * b <= a < q * b + b
    ensures a / b == q
  {
    DivModUnique(a, b, q, a - q * b);
  }

  /** A settled block whose two widths are used as the tool does: the 32-bit FAT size on FAT32
      only, one of the two sector counts zero. */
  predicate Settled(p: BootParams, total: nat) {
    && FieldsFit(p)
    && (if p.fat == 32 then p.spf == 0 && p.rde == 0 else p.bspf == 0)
    && 0 < total < 0x1_0000_0000
    && (if Add32(p.hid, total) <= MAXU16 then p.sec == total && p.bsec == 0 else p.sec == 0 && p.bsec == total)
  }

  /** The layout as the tool computed it. */
  function TrueLayout(p: BootParams, total: nat): Layout
    requires p.Valid()
  {
    var rds := RootSectors(p.rde, p.bps);
    Layout(p.bps, p.spc, p.nft, total, p.FatSectors(), rds, p.Dir() + rds)
  }

  /** A reader recovers everything but the sector count always, and the sector count exactly when
      the sum of hidden and total sectors did not wrap to a 16-bit number. */
  lemma ReaderRecoversLayout(p: BootParams, x: Extras, total: nat)
    requires Settled(p, total)
    ensures var l := ReadLayout(BootSector(p, x)); l == TrueLayout(p, l.total)
    ensures ReadLayout(BootSector(p, x)) == TrueLayout(p, total) <==> !(Add32(p.hid, total) <= MAXU16 < total)
  {
    hide BootSector, ReadLayout;
    BootFields(p, x);
    FieldsGiveLayout(BootSector(p, x), p, total);
  }

  lemma FieldsGiveLayout(s: seq<byte>, p: BootParams, total: nat)
    requires Settled(p, total) && |s| >= MINBPS && CommonFields(s, p)
    requires p.fat == 32 ==> Fat32Fields(s, p)
    ensures var l := ReadLayout(s); l == TrueLayout(p, l.total)
    ensures ReadLayout(s) == TrueLayout(p, total) <==> !(Add32(p.hid, total) <= MAXU16 < total)
  {
    hide RootSectors;
    RootSectorsAgree(p.rde, p.bps);
  }
}
