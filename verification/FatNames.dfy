/** Labels, signatures and the jump to the boot code: what else a driver or the firmware finds in the
    sectors that the formatter makes. */
module FatNames {
  import opened Bytes
  import opened FatLayout
  import opened FatImage

  /** A label as drivers take it: capital letters for small ones, blanks behind the end, and a different
      byte for the one that marks a deleted entry; everything else as it was. */
  lemma LabelReads(src: seq<byte>, i: nat)
    requires i < 11
    ensures var c := Label(src)[i];
      && (i >= |src| ==> c == ' ' as int)
      && (i < |src| && 'a' as int <= src[i] <= 'z' as int ==> c == src[i] - ('a' as int - 'A' as int))
      && (i < |src| && !('a' as int <= src[i] <= 'z' as int) ==> c == if i == 0 && src[0] == 0xe5 then 5 else src[i])
      && !('a' as int <= c <= 'z' as int)
    ensures Label(Label(src)) == Label(src)
  {
    LabelBytes(src);
    LabelBytes(Label(src));
  }

  lemma LabelBytes(src: seq<byte>)
    ensures forall i :: 0 <= i < 11 ==>
              Label(src)[i] == if i >= |src| then 0x20 else if i == 0 && src[0] == 0xe5 then 5 else Upper(src[i])
  {
  }

  function TypeText(fat: FatType): string {
    if fat == 12 then "FAT12   " else if fat == 16 then "FAT16   " else "FAT32   "
  }

  lemma TypeReads(fat: FatType)
    ensures forall i :: 0 <= i < 8 ==> PadTo(FatName(fat), 8)[i] == TypeText(fat)[i] as int
  {
  }

  /** The jump in front leads to the boot code. */
  predicate JumpsToCode(s: seq<byte>)
    requires |s| >= MINBPS
  {
    && s[0] == 0xeb && s[2] == 0x90
    && var code: nat := 2 + s[1] as int;
    code + |BOOTCODE| <= 510 && Slice(s, code, |BOOTCODE|) == BOOTCODE
  }

  /** The extension behind the parameter block: signature 29, volume ID, label and name of the type. */
  predicate Extension(s: seq<byte>, fat: FatType, x: Extras)
    requires |s| >= MINBPS
  {
    var at := if fat == 32 then 64 else 36;
    && s[at + 2] == 0x29 && U32At(s, at + 3) == x.volid
    && Slice(s, at + 7, 11) == Label(if x.volume != [] then x.volume else NO_NAME)
    && forall i :: 0 <= i < 8 ==> s[at + 18 + i] == TypeText(fat)[i] as int
  }

  lemma ExtensionPut(s: seq<byte>, fat: FatType, x: Extras)
    requires |s| >= MINBPS
    ensures Extension(PutExt(s, fat, x), fat, x)
  {
    hide PadTo, Label, FatName;
    TypeReads(fat);
  }

  /** The boot code goes around it. */
  lemma CodePut(s: seq<byte>, fat: FatType, x: Extras)
    requires |s| >= MINBPS && Extension(s, fat, x)
    ensures var r := PutCode(s, fat, x);
      && JumpsToCode(r) && Extension(r, fat, x)
      && Slice(r, 3, 8) == PadTo(if x.oem != [] then x.oem else OEM, 8)
      && r[510] == 0x55 && r[511] == 0xaa
  {
    hide PadTo, Label, FatName, U32At, BOOTCODE;
    var r := PutCode(s, fat, x);
    CodeBytes(s, fat, x);
    var at := if fat == 32 then 64 else 36;
    NumbersInSlice(s, at + 3, 4, 0);
    NumbersInSlice(r, at + 3, 4, 0);
    assert Slice(r, at + 3, 4) == Slice(s, at + 3, 4) && Slice(r, at + 7, 11) == Slice(s, at + 7, 11);
  }

  lemma CodeBytes(s: seq<byte>, fat: FatType, x: Extras)
    requires |s| >= MINBPS
    ensures CodeOffset(fat) + |BOOTCODE| <= 510
    ensures var r := PutCode(s, fat, x);
      && r[0] == 0xeb && r[1] == CodeOffset(fat) - 2 && r[2] == 0x90 && r[510] == 0x55 && r[511] == 0xaa
      && (forall i :: 3 <= i < 11 ==> r[i] == PadTo(if x.oem != [] then x.oem else OEM, 8)[i - 3])
      && (forall i :: 11 <= i < CodeOffset(fat) ==> r[i] == s[i])
      && Slice(r, CodeOffset(fat), |BOOTCODE|) == BOOTCODE
  {
    hide PadTo;
  }

  /** What the boot sector says beside the parameter block. */
  lemma BootNames(p: BootParams, x: Extras)
    requires p.Valid()
    ensures var s := BootSector(p, x);
      && JumpsToCode(s) && Extension(s, p.fat, x)
      && Slice(s, 3, 8) == PadTo(if x.oem != [] then x.oem else OEM, 8)
      && s[510] == 0x55 && s[511] == 0xaa
  {
    hide PutBpb, PutXBpb, PutExt, PutCode, JumpsToCode, Extension, PadTo;
    var s := PutBpb(Zeros(p.bps), p);
    var b := if p.fat == 32 then PutXBpb(s, p) else s;
    ExtensionPut(b, p.fat, x);
    CodePut(PutExt(b, p.fat, x), p.fat, x);
  }

  /** The information sector: its three signatures, the free count unknown, the root's cluster as a hint
      where to look, and nothing else. */
  lemma InfoFields(p: BootParams)
    requires p.Valid()
    ensures var s := InfoSector(p);
      && U32At(s, 0) == 0x41615252 && U32At(s, 484) == 0x61417272 && U32At(s, 488) == 0xffff_ffff && U32At(s, 492) == p.rdcl
      && s[510] == 0x55 && s[511] == 0xaa
      && forall i :: 0 <= i < |s| && !(i < 4 || 484 <= i < 496 || 510 <= i < 512) ==> s[i] == 0
  {
  }

  /** The root directory's first entry: the label, marked as one, with time and date, and nothing else. */
  lemma LabelFields(p: BootParams, x: Extras)
    requires p.Valid()
    ensures var s := LabelSector(p, x);
      && Slice(s, 0, 11) == Label(x.volume) && s[11] == 0x28 && U16At(s, 22) == x.time && U16At(s, 24) == x.date
      && forall i :: 0 <= i < |s| && !(i < 12 || 22 <= i < 26) ==> s[i] == 0
  {
    hide Label;
  }
}
