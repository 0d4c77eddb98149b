/** Editing a table: names, the smallest free slot, creating and deleting entries, and what every
    run of edits keeps. */
module GptTable {
  import opened Bytes
  import opened GptFormat
  import opened GptImage

  const NAME_MAX: nat := 35

  /** The types by their GUIDs, byte by byte as they lie on the disk. */
  lemma StandardTypes()
    ensures TypeGuid(Esp) == GuidAt([0x28, 0x73, 0x2a, 0xc1, 0x1f, 0xf8, 0xd2, 0x11, 0xba, 0x4b, 0x00, 0xa0, 0xc9, 0x3e, 0xc9, 0x3b], 0)
    ensures TypeGuid(MsReserved) == GuidAt([0x16, 0xe3, 0xc9, 0xe3, 0x5c, 0x0b, 0xb8, 0x4d, 0x81, 0x7d, 0xf9, 0x2d, 0xf0, 0x02, 0x15, 0xae], 0)
    ensures TypeGuid(MsData) == GuidAt([0xa2, 0xa0, 0xd0, 0xeb, 0xe5, 0xb9, 0x33, 0x44, 0x87, 0xc0, 0x68, 0xb6, 0xb7, 0x26, 0x99, 0xc7], 0)
    ensures TypeGuid(Linux) == GuidAt([0xaf, 0x3d, 0xc6, 0x0f, 0x83, 0x84, 0x72, 0x47, 0x8e, 0x79, 0x3d, 0x69, 0xd8, 0x47, 0x7d, 0xe4], 0)
    ensures TypeGuid(LinuxSwap) == GuidAt([0x6d, 0xfd, 0x57, 0x06, 0xab, 0xa4, 0xc4, 0x43, 0x84, 0xe5, 0x09, 0x33, 0xc8, 0x4b, 0x4f, 0x4f], 0)
  {
  }

  /** Different types have different GUIDs. */
  lemma TypesDiffer(a: PartType, b: PartType)
    ensures TypeGuid(a) == TypeGuid(b) <==> a == b
  {
  }

  /** A C string: characters of one byte, none of them zero. */
  predicate IsCString(s: string) {
    forall i :: 0 <= i < |s| ==> 0 < s[i] as int < 0x100
  }

  type CString = s: string | IsCString(s) witness ""

  datatype PartType = Linux | AndroidBoot | AndroidRecovery | AndroidTertiary | AndroidMisc | AndroidMetadata
    | MsData | MsReserved | Esp | LinuxSwap

  /** The type GUID of each type. */
  function TypeGuid(t: PartType): Guid {
    match t
    case Esp => GuidFields(0xC12A7328, 0xF81F, 0x11D2, [0xBA, 0x4B, 0x00, 0xA0, 0xC9, 0x3E, 0xC9, 0x3B])
    case MsReserved => GuidFields(0xE3C9E316, 0x0B5C, 0x4DB8, [0x81, 0x7D, 0xF9, 0x2D, 0xF0, 0x02, 0x15, 0xAE])
    case MsData => GuidFields(0xEBD0A0A2, 0xB9E5, 0x4433, [0x87, 0xC0, 0x68, 0xB6, 0xB7, 0x26, 0x99, 0xC7])
    case Linux => GuidFields(0x0FC63DAF, 0x8483, 0x4772, [0x8E, 0x79, 0x3D, 0x69, 0xD8, 0x47, 0x7D, 0xE4])
    case LinuxSwap => GuidFields(0x0657FD6D, 0xA4AB, 0x43C4, [0x84, 0xE5, 0x09, 0x33, 0xC8, 0x4B, 0x4F, 0x4F])
    case AndroidBoot => GuidFields(0x49a4d17f, 0x93a3, 0x45c1, [0xa0, 0xde, 0xf5, 0x0b, 0x2e, 0xbe, 0x25, 0x99])
    case AndroidRecovery => GuidFields(0x4177c722, 0x9e92, 0x4aab, [0x86, 0x44, 0x43, 0x50, 0x2b, 0xfd, 0x55, 0x06])
    case AndroidTertiary => GuidFields(0x767941d0, 0x2085, 0x11e3, [0xad, 0x3b, 0x6c, 0xfd, 0xb9, 0x47, 0x11, 0xe9])
    case AndroidMisc => GuidFields(0xef32a33b, 0xa409, 0x486c, [0x91, 0x41, 0x9f, 0xfb, 0x71, 0x1f, 0x62, 0x66])
    case AndroidMetadata => GuidFields(0x20ac26be, 0x20b7, 0x11e3, [0x84, 0xc5, 0x6c, 0xfd, 0xb9, 0x47, 0x11, 0xe9])
  }

  /** The unit a character is stored as: a signed char, sign-extended. */
  function Widen(c: char): uint16
    requires 0 < c as int < 0x100
  {
    if c as int < 0x80 then c as int else 0xff00 + c as int
  }

  /** The character a unit reads back as. */
  function Narrow(u: uint16): char
    requires u != 0
  {
    if u > 127 then '?' else u as char
  }

  /** A name field after a name is written: the name, a zero, and what was there before. */
  function SetName(field: seq<uint16>, s: CString): (r: seq<uint16>)
    requires |field| == NAME_UNITS && |s| <= NAME_MAX
    ensures |r| == NAME_UNITS
    ensures forall i :: 0 <= i < NAME_UNITS ==>
      r[i] == if i < |s| then Widen(s[i]) else if i == |s| then 0 else field[i]
  {
    seq(NAME_UNITS, i requires 0 <= i < NAME_UNITS => if i < |s| then Widen(s[i]) else if i == |s| then 0 else field[i])
  }

  /** A name field as a string: the characters before the first zero. */
  function GetName(field: seq<uint16>): string {
    if field == [] || field[0] == 0 then "" else [Narrow(field[0])] + GetName(field[1..])
  }

  /** A name as it reads back: characters beyond ASCII become question marks. */
  function AsciiOnly(s: CString): (r: string)
    ensures |r| == |s|
  {
    seq(|s|, i requires 0 <= i < |s| => if s[i] as int < 0x80 then s[i] else '?')
  }

  lemma {:induction false} GetNameOf(field: seq<uint16>, s: CString)
    requires |s| < |field| && field[|s|] == 0
    requires forall i :: 0 <= i < |s| ==> field[i] == Widen(s[i])
    ensures GetName(field) == AsciiOnly(s)
  {
    if s != "" {
      var rest: CString := s[1..];
      assert forall i :: 0 <= i < |rest| ==> field[1..][i] == Widen(rest[i]);
      GetNameOf(field[1..], rest);
      assert AsciiOnly(s) == [AsciiOnly(s)[0]] + AsciiOnly(rest);
    }
  }

  /** The units stored: the characters as signed bytes, widened with their sign, a zero, and behind it
      what was there. */
  lemma NameUnits(field: seq<uint16>, s: CString, i: nat)
    requires |field| == NAME_UNITS && |s| <= NAME_MAX && i < NAME_UNITS
    ensures var u := SetName(field, s)[i];
      if i < |s| then u == (if s[i] as int < 128 then s[i] as int else s[i] as int - 256) % 0x1_0000
      else if i == |s| then u == 0 else u == field[i]
  {
  }

  /** A name that fits reads back, whatever name was there before. */
  lemma NameReadsBack(field: seq<uint16>, s: CString)
    requires |field| == NAME_UNITS && |s| <= NAME_MAX
    ensures GetName(SetName(field, s)) == AsciiOnly(s)
    ensures (forall i :: 0 <= i < |s| ==> s[i] as int < 0x80) ==> GetName(SetName(field, s)) == s
  {
    GetNameOf(SetName(field, s), s);
    assert (forall i :: 0 <= i < |s| ==> s[i] as int < 0x80) ==> AsciiOnly(s) == s;
  }

  predicate Live(e: Entry) {
    e.firstLba != 0
  }

  /** The index, counted from 1, of the first entry not in use from position i on; 0 if none. */
  function NextIndexFrom(es: seq<Entry>, i: nat): (r: nat)
    requires i <= |es|
    ensures r == 0 || i < r <= |es|
    decreases |es| - i
  {
    if i == |es| then 0 else if !Live(es[i]) then i + 1 else NextIndexFrom(es, i + 1)
  }

  lemma {:induction false} NextIndexIsSmallest(es: seq<Entry>, i: nat)
    requires i <= |es|
    ensures var r := NextIndexFrom(es, i);
      && (r == 0 <==> forall k :: i <= k < |es| ==> Live(es[k]))
      && (r != 0 ==> !Live(es[r - 1]) && forall k :: i <= k < r - 1 ==> Live(es[k]))
    decreases |es| - i
  {
    if i < |es| && Live(es[i]) {
      NextIndexIsSmallest(es, i + 1);
    }
  }

  /** What a new entry is to be. */
  datatype Spec = Spec(name: CString, ptype: PartType, flags: uint64, first: uint64, last: uint64, guid: Guid)

  function Filled(e: Entry, s: Spec): Entry
    requires |s.name| <= NAME_MAX
  {
    e.(flags := s.flags, firstLba := s.first, lastLba := s.last, name := SetName(e.name, s.name),
       typeGuid := TypeGuid(s.ptype), partGuid := s.guid)
  }

  /** The entries after an attempt to create one. A name that is too long is noticed only after the
      range has been entered. */
  function Created(es: seq<Entry>, s: Spec): (r: seq<Entry>)
    ensures |r| == |es|
  {
    var i := NextIndexFrom(es, 0);
    if i == 0 then es
    else if |s.name| > NAME_MAX then es[i - 1 := es[i - 1].(flags := s.flags, firstLba := s.first, lastLba := s.last)]
    else es[i - 1 := Filled(es[i - 1], s)]
  }

  /** The index of the new entry, 0 on failure. */
  function CreatedIndex(es: seq<Entry>, s: Spec): (i: nat)
    ensures i <= |es|
  {
    if |s.name| > NAME_MAX then 0 else NextIndexFrom(es, 0)
  }

  function Deleted(es: seq<Entry>, i: nat): (r: seq<Entry>)
    ensures |r| == |es|
  {
    if i == 0 || i > |es| then es else es[i - 1 := NoEntry(es[i - 1].pad)]
  }

  /** A deleted entry is all zeros on the disk, and no other entry changes; an index that is none changes
      nothing. */
  lemma DeletedIsBlank(es: seq<Entry>, i: nat)
    ensures forall k :: 0 <= k < |es| && k != i - 1 ==> Deleted(es, i)[k] == es[k]
    ensures 1 <= i <= |es| ==>
              var s := EncodeEntry(Deleted(es, i)[i - 1]);
              |s| == ENTRY_BYTES + |es[i - 1].pad| && forall b :: 0 <= b < ENTRY_BYTES ==> s[b] == 0
  {
    if 1 <= i <= |es| {
      BlankBytes(es[i - 1].pad);
    }
  }

  lemma BlankBytes(pad: seq<byte>)
    ensures forall b :: 0 <= b < ENTRY_BYTES ==> EncodeEntry(NoEntry(pad))[b] == 0
  {
    hide LE, EncodeName;
    ZeroLE(2);
    ZeroLE(4);
    ZeroLE(8);
    ZeroName(seq(36, _ => 0));
  }

  lemma {:induction false} ZeroName(name: seq<uint16>)
    requires forall i :: 0 <= i < |name| ==> name[i] == 0
    ensures EncodeName(name) == Zeros(2 * |name|)
  {
    if name != [] {
      ZeroLE(2);
      ZeroName(name[1..]);
    }
  }

  /** Creating fails exactly on a full table or a name too long; otherwise the entry goes into the
      first free slot, with the range asked for and a name that reads back, and no other slot
      changes. */
  lemma CreateIsLocal(es: seq<Entry>, s: Spec)
    ensures var i, r := CreatedIndex(es, s), Created(es, s);
      && (i == 0 <==> |s.name| > NAME_MAX || forall k :: 0 <= k < |es| ==> Live(es[k]))
      && (i != 0 ==>
            && !Live(es[i - 1]) && (forall k :: 0 <= k < i - 1 ==> Live(es[k]))
            && r[i - 1].firstLba == s.first && r[i - 1].lastLba == s.last && r[i - 1].flags == s.flags
            && GetName(r[i - 1].name) == AsciiOnly(s.name)
            && r[i - 1].typeGuid == TypeGuid(s.ptype) && r[i - 1].partGuid == s.guid
            && forall k :: 0 <= k < |es| && k != i - 1 ==> r[k] == es[k])
  {
    NextIndexIsSmallest(es, 0);
    var i := CreatedIndex(es, s);
    if i != 0 {
      NameReadsBack(es[i - 1].name, s.name);
    }
  }

  /** A failed creation leaves the table alone where it is full, and if the range asked for does not start
      at zero nowhere else. Otherwise, which means for a name too long, the first free slot gets the range
      and flags asked for beside the type, GUID and name of the unused entry that it was: it is in use
      without a name, if the range does not start at zero. */
  lemma FailedCreateLeavesTraces(es: seq<Entry>, s: Spec)
    requires CreatedIndex(es, s) == 0
    ensures s.first != 0 ==> (Created(es, s) == es <==> forall k :: 0 <= k < |es| ==> Live(es[k]))
    ensures var i, r := NextIndexFrom(es, 0), Created(es, s);
      if i == 0 then r == es && forall k :: 0 <= k < |es| ==> Live(es[k])
      else
        && |s.name| > NAME_MAX && !Live(es[i - 1]) && (Live(r[i - 1]) <==> s.first != 0)
        && r[i - 1] == es[i - 1].(flags := s.flags, firstLba := s.first, lastLba := s.last)
        && (forall k :: 0 <= k < |es| && k != i - 1 ==> r[k] == es[k])
        && (es[i - 1] == NoEntry(es[i - 1].pad) ==> GetName(r[i - 1].name) == "" && r[i - 1].typeGuid == NoGuid())
  {
    NextIndexIsSmallest(es, 0);
  }

  predicate Overlap(a: Entry, b: Entry) {
    a.firstLba <= b.lastLba && b.firstLba <= a.lastLba
  }

  predicate InRange(e: Entry, h: Header) {
    h.firstUsable <= e.firstLba <= e.lastLba <= h.lastUsable
  }

  /** Entries in use lie in the usable range and do not overlap. */
  predicate WellLaid(t: Table) {
    && (forall i :: 0 <= i < |t.entries| && Live(t.entries[i]) ==> InRange(t.entries[i], t.header))
    && (forall i, j :: 0 <= i < j < |t.entries| && Live(t.entries[i]) && Live(t.entries[j]) ==>
          !Overlap(t.entries[i], t.entries[j]))
  }

  predicate Covered(es: seq<Entry>, lba: int) {
    exists i :: 0 <= i < |es| && Live(es[i]) && es[i].firstLba <= lba <= es[i].lastLba
  }

  /** A usable sector of no partition. */
  predicate Free(t: Table, lba: int) {
    t.header.firstUsable <= lba <= t.header.lastUsable && !Covered(t.entries, lba)
  }

  datatype Edit = Create(spec: Spec) | Delete(index: nat)

  function Applied(t: Table, e: Edit): Table {
    match e
    case Create(s) => t.(entries := Created(t.entries, s))
    case Delete(i) => t.(entries := Deleted(t.entries, i))
  }

  /** Entries are created on free sectors, with a name that fits. */
  ghost predicate Allowed(t: Table, e: Edit) {
    match e
    case Create(s) => 0 < s.first <= s.last && |s.name| <= NAME_MAX && forall lba :: s.first <= lba <= s.last ==> Free(t, lba)
    case Delete(_) => true
  }

  function Run(t: Table, edits: seq<Edit>): Table
    decreases |edits|
  {
    if edits == [] then t else Run(Applied(t, edits[0]), edits[1..])
  }

  ghost predicate AllAllowed(t: Table, edits: seq<Edit>)
    decreases |edits|
  {
    edits == [] || (Allowed(t, edits[0]) && AllAllowed(Applied(t, edits[0]), edits[1..]))
  }

  /** An entry on free sectors overlaps no entry in use. */
  lemma FreeMeansDisjoint(t: Table, first: nat, last: nat, j: nat)
    requires WellLaid(t) && first <= last && (forall lba :: first <= lba <= last ==> Free(t, lba))
    requires j < |t.entries| && Live(t.entries[j])
    ensures last < t.entries[j].firstLba || t.entries[j].lastLba < first
  {
    var e := t.entries[j];
    var meet := if first <= e.firstLba then e.firstLba else first;
    assert InRange(e, t.header);
    assert first <= meet <= last ==> Free(t, meet) && !Covered(t.entries, meet);
  }

  lemma CreateKeepsLayout(t: Table, s: Spec)
    requires WellLaid(t) && Allowed(t, Create(s))
    ensures WellLaid(Applied(t, Create(s)))
  {
    NextIndexIsSmallest(t.entries, 0);
    var i := CreatedIndex(t.entries, s);
    if i != 0 {
      var t' := Applied(t, Create(s));
      assert Free(t, s.first) && Free(t, s.last);
      forall j | 0 <= j < |t.entries| && j != i - 1 && Live(t.entries[j])
        ensures !Overlap(t'.entries[i - 1], t'.entries[j]) && !Overlap(t'.entries[j], t'.entries[i - 1])
      {
        FreeMeansDisjoint(t, s.first, s.last, j);
      }
    }
  }

  lemma EditKeepsLayout(t: Table, e: Edit)
    requires WellLaid(t) && Allowed(t, e)
    ensures WellLaid(Applied(t, e))
    ensures Applied(t, e).header == t.header && |Applied(t, e).entries| == |t.entries|
    ensures t.Consistent() ==> Applied(t, e).Consistent()
  {
    if e.Create? {
      CreateKeepsLayout(t, e.spec);
    }
  }

  /** Every run of allowed edits keeps the entries disjoint, inside the usable range, and as many
      as the header says. */
  lemma {:induction false} RunKeepsLayout(t: Table, edits: seq<Edit>)
    requires WellLaid(t) && t.Consistent() && AllAllowed(t, edits)
    ensures WellLaid(Run(t, edits)) && Run(t, edits).Consistent()
    ensures Run(t, edits).header == t.header
    decreases |edits|
  {
    if edits != [] {
      EditKeepsLayout(t, edits[0]);
      RunKeepsLayout(Applied(t, edits[0]), edits[1..]);
    }
  }

  /** Deleting what was just created restores the ranges in use. */
  lemma DeleteUndoesCreate(t: Table, s: Spec, lba: int)
    requires CreatedIndex(t.entries, s) != 0
    ensures var t' := Applied(Applied(t, Create(s)), Delete(CreatedIndex(t.entries, s))); Free(t', lba) <==> Free(t, lba)
  {
    NextIndexIsSmallest(t.entries, 0);
    var i := CreatedIndex(t.entries, s);
    var t' := Applied(Applied(t, Create(s)), Delete(i));
    assert forall k :: 0 <= k < |t.entries| && k != i - 1 ==> t'.entries[k] == t.entries[k];
    assert !Live(t'.entries[i - 1]) && !Live(t.entries[i - 1]);
    if Covered(t.entries, lba) {
      var k :| 0 <= k < |t.entries| && Live(t.entries[k]) && t.entries[k].firstLba <= lba <= t.entries[k].lastLba;
      assert t'.entries[k] == t.entries[k];
    }
    if Covered(t'.entries, lba) {
      var k :| 0 <= k < |t'.entries| && Live(t'.entries[k]) && t'.entries[k].firstLba <= lba <= t'.entries[k].lastLba;
      assert t'.entries[k] == t.entries[k];
    }
  }
}
