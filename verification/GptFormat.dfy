/** The on-disk form of a GUID partition table: headers and entries as records of host numbers, and
    their little-endian bytes (UEFI Specification, sections 5.3.2 and 5.3.3). */
module GptFormat {
  import opened Arithmetic
  import opened Bytes

  const HEADER_BYTES: nat := 92
  const ENTRY_BYTES: nat := 128
  const NAME_UNITS: nat := 36

  datatype GuidFields = GuidFields(data1: uint32, data2: uint16, data3: uint16, data4: seq<byte>)
  type Guid = g: GuidFields | |g.data4| == 8 witness GuidFields(0, 0, 0, [0, 0, 0, 0, 0, 0, 0, 0])

  datatype HeaderFields = HeaderFields(
    sig: seq<byte>, revision: uint32, headerSize: uint32, crc32: uint32, reservedZero: uint32,
    currentLba: uint64, backupLba: uint64, firstUsable: uint64, lastUsable: uint64, diskGuid: Guid,
    entriesStart: uint64, numEntries: uint32, entrySize: uint32, entriesCrc: uint32)
  type Header = h: HeaderFields | |h.sig| == 8
    witness HeaderFields([0, 0, 0, 0, 0, 0, 0, 0], 0, 0, 0, 0, 0, 0, 0, 0, GuidFields(0, 0, 0, [0, 0, 0, 0, 0, 0, 0, 0]), 0, 0, 0, 0)

  /** An entry; pad is what lies between its 128 bytes and the next entry. */
  datatype EntryFields = EntryFields(
    typeGuid: Guid, partGuid: Guid, firstLba: uint64, lastLba: uint64, flags: uint64, name: seq<uint16>, pad: seq<byte>)
  type Entry = e: EntryFields | |e.name| == NAME_UNITS witness EntryFields(NoGuid(), NoGuid(), 0, 0, 0, seq(36, _ => 0), [])

  function NoGuid(): Guid {
    GuidFields(0, 0, 0, Zeros(8))
  }

  /** An unused entry. */
  function NoEntry(pad: seq<byte>): Entry {
    EntryFields(NoGuid(), NoGuid(), 0, 0, 0, seq(36, _ => 0), pad)
  }

  function EncodeGuid(g: Guid): (s: seq<byte>)
    ensures |s| == 16
  {
    LE(g.data1, 4) + (LE(g.data2, 2) + (LE(g.data3, 2) + g.data4))
  }

  function DecodeGuid(s: seq<byte>): Guid
    requires |s| == 16
  {
    GuidFields(Read32(s[..4]), Read16(s[4..][..2]), Read16(s[4..][2..][..2]), s[4..][2..][2..])
  }

  lemma GuidRoundTrip(g: Guid)
    ensures DecodeGuid(EncodeGuid(g)) == g
  {
    Read32OfLE(g.data1);
    Read16OfLE(g.data2);
    Read16OfLE(g.data3);
  }

  function EncodeName(name: seq<uint16>): (s: seq<byte>)
    ensures |s| == 2 * |name|
  {
    if name == [] then [] else LE(name[0], 2) + EncodeName(name[1..])
  }

  function DecodeName(s: seq<byte>, n: nat): (name: seq<uint16>)
    requires |s| == 2 * n
    ensures |name| == n
    decreases n
  {
    if n == 0 then [] else [Read16(s[..2])] + DecodeName(s[2..], n - 1)
  }

  lemma {:induction false} NameRoundTrip(name: seq<uint16>)
    ensures DecodeName(EncodeName(name), |name|) == name
  {
    if name != [] {
      Read16OfLE(name[0]);
      NameRoundTrip(name[1..]);
    }
  }

  function EncodeEntry(e: Entry): (s: seq<byte>)
    ensures |s| == ENTRY_BYTES + |e.pad|
  {
    EncodeGuid(e.typeGuid)
    + (EncodeGuid(e.partGuid) + (LE(e.firstLba, 8) + (LE(e.lastLba, 8) + (LE(e.flags, 8) + (EncodeName(e.name) + e.pad)))))
  }

  function DecodeEntry(s: seq<byte>): (e: Entry)
    requires |s| >= ENTRY_BYTES
    ensures |e.pad| == |s| - ENTRY_BYTES
  {
    var s1 := s[16..];
    var s2 := s1[16..];
    var s3 := s2[8..];
    var s4 := s3[8..];
    var s5 := s4[8..];
    EntryFields(DecodeGuid(s[..16]), DecodeGuid(s1[..16]), Read64(s2[..8]), Read64(s3[..8]), Read64(s4[..8]),
                DecodeName(s5[..72], NAME_UNITS), s5[72..])
  }

  lemma EntryRoundTrip(e: Entry)
    ensures DecodeEntry(EncodeEntry(e)) == e
  {
    hide DecodeGuid, EncodeGuid, DecodeName, EncodeName, LE, FromLE;
    GuidRoundTrip(e.typeGuid);
    GuidRoundTrip(e.partGuid);
    Read64OfLE(e.firstLba);
    Read64OfLE(e.lastLba);
    Read64OfLE(e.flags);
    NameRoundTrip(e.name);
  }

  function EncodeEntries(es: seq<Entry>): seq<byte> {
    if es == [] then [] else EncodeEntry(es[0]) + EncodeEntries(es[1..])
  }

  /** Every entry takes up `size` bytes. */
  predicate Uniform(es: seq<Entry>, size: nat) {
    forall i :: 0 <= i < |es| ==> ENTRY_BYTES + |es[i].pad| == size
  }

  lemma {:induction false} EntriesSize(es: seq<Entry>, size: nat)
    requires Uniform(es, size)
    ensures |EncodeEntries(es)| == |es| * size
  {
    if es != [] {
      EntriesSize(es[1..], size);
      assert |es| * size == |es[1..]| * size + size;
    }
  }

  function DecodeEntries(s: seq<byte>, n: nat, size: nat): (es: seq<Entry>)
    requires size >= ENTRY_BYTES && |s| == n * size
    ensures |es| == n && Uniform(es, size)
    decreases n
  {
    if n == 0 then [] else
    assert n * size == (n - 1) * size + size;
    [DecodeEntry(s[..size])] + DecodeEntries(s[size..], n - 1, size)
  }

  lemma {:induction false} EntriesRoundTrip(es: seq<Entry>, size: nat)
    requires Uniform(es, size) && size >= ENTRY_BYTES
    ensures |EncodeEntries(es)| == |es| * size
    ensures DecodeEntries(EncodeEntries(es), |es|, size) == es
  {
    hide EncodeEntry, DecodeEntry;
    EntriesSize(es, size);
    if es != [] {
      EntryRoundTrip(es[0]);
      EntriesRoundTrip(es[1..], size);
    }
  }

  /** The header in front of its checksum, and behind it. */
  function HeaderHead(h: Header): (s: seq<byte>)
    ensures |s| == 16
  {
    h.sig + (LE(h.revision, 4) + LE(h.headerSize, 4))
  }

  function HeaderTail(h: Header): (s: seq<byte>)
    ensures |s| == 72
  {
    LE(h.reservedZero, 4)
    + (LE(h.currentLba, 8) + (LE(h.backupLba, 8) + (LE(h.firstUsable, 8) + (LE(h.lastUsable, 8)
    + (EncodeGuid(h.diskGuid) + (LE(h.entriesStart, 8) + (LE(h.numEntries, 4) + (LE(h.entrySize, 4) + LE(h.entriesCrc, 4)))))))))
  }

  function EncodeHeader(h: Header): (s: seq<byte>)
    ensures |s| == HEADER_BYTES
  {
    HeaderHead(h) + (LE(h.crc32, 4) + HeaderTail(h))
  }

  function DecodeHeader(s: seq<byte>): Header
    requires |s| == HEADER_BYTES
  {
    var head, rest := s[..16], s[16..];
    var t := rest[4..];
    var t1 := t[4..];
    var t2 := t1[8..];
    var t3 := t2[8..];
    var t4 := t3[8..];
    var t5 := t4[8..];
    var t6 := t5[16..];
    var t7 := t6[8..];
    var t8 := t7[4..];
    HeaderFields(head[..8], Read32(head[8..][..4]), Read32(head[8..][4..]), Read32(rest[..4]), Read32(t[..4]),
                 Read64(t1[..8]), Read64(t2[..8]), Read64(t3[..8]), Read64(t4[..8]), DecodeGuid(t5[..16]), Read64(t6[..8]),
                 Read32(t7[..4]), Read32(t8[..4]), Read32(t8[4..]))
  }

  lemma HeaderRoundTrip(h: Header)
    ensures DecodeHeader(EncodeHeader(h)) == h
  {
    hide DecodeGuid, EncodeGuid, LE, FromLE;
    Read32OfLE(h.revision);
    Read32OfLE(h.headerSize);
    Read32OfLE(h.crc32);
    Read32OfLE(h.reservedZero);
    Read64OfLE(h.currentLba);
    Read64OfLE(h.backupLba);
    Read64OfLE(h.firstUsable);
    Read64OfLE(h.lastUsable);
    GuidRoundTrip(h.diskGuid);
    Read64OfLE(h.entriesStart);
    Read32OfLE(h.numEntries);
    Read32OfLE(h.entrySize);
    Read32OfLE(h.entriesCrc);
  }

  function GuidAt(s: seq<byte>, off: nat): Guid
    requires off + 16 <= |s|
  {
    GuidFields(U32At(s, off), U16At(s, off + 4), U16At(s, off + 6), Slice(s, off + 8, 8))
  }

  lemma GuidFieldsAt(s: seq<byte>, off: nat)
    requires off + 16 <= |s|
    ensures DecodeGuid(Slice(s, off, 16)) == GuidAt(s, off)
  {
    hide Read32, Read16, U32At, U16At;
    var g := Slice(s, off, 16);
    assert g[..4] == Slice(s, off, 4) && g[4..][..2] == Slice(s, off + 4, 2) && g[4..][2..][..2] == Slice(s, off + 6, 2);
    assert g[4..][2..][2..] == Slice(s, off + 8, 8);
    Read32At(s, off);
    Read16At(s, off + 4);
    Read16At(s, off + 6);
  }

  /** What the bytes of a header say (UEFI Specification, section 5.3.2). */
  predicate HeaderSays(s: seq<byte>, h: Header)
    requires |s| == HEADER_BYTES
  {
    && h.sig == Slice(s, 0, 8) && h.revision == U32At(s, 8) && h.headerSize == U32At(s, 12) && h.crc32 == U32At(s, 16)
    && h.reservedZero == U32At(s, 20) && h.currentLba == U64At(s, 24) && h.backupLba == U64At(s, 32)
    && h.firstUsable == U64At(s, 40) && h.lastUsable == U64At(s, 48) && h.diskGuid == GuidAt(s, 56)
    && h.entriesStart == U64At(s, 72) && h.numEntries == U32At(s, 80) && h.entrySize == U32At(s, 84)
    && h.entriesCrc == U32At(s, 88)
  }

  lemma HeaderFieldsAt(s: seq<byte>)
    requires |s| == HEADER_BYTES
    ensures HeaderSays(s, DecodeHeader(s))
  {
    hide Read32, Read64, U32At, U64At, DecodeGuid, GuidAt;
    assert s[..16][..8] == Slice(s, 0, 8) && s[..16][8..][..4] == Slice(s, 8, 4) && s[..16][8..][4..] == Slice(s, 12, 4);
    assert s[16..][..4] == Slice(s, 16, 4) && s[16..][4..] == s[20..] && s[20..][..4] == Slice(s, 20, 4);
    assert s[20..][4..] == s[24..] && s[24..][8..] == s[32..] && s[32..][8..] == s[40..] && s[40..][8..] == s[48..];
    assert s[24..][..8] == Slice(s, 24, 8) && s[32..][..8] == Slice(s, 32, 8);
    assert s[40..][..8] == Slice(s, 40, 8) && s[48..][..8] == Slice(s, 48, 8);
    assert s[48..][8..] == s[56..] && s[56..][..16] == Slice(s, 56, 16) && s[56..][16..] == s[72..];
    assert s[72..][..8] == Slice(s, 72, 8) && s[72..][8..] == s[80..] && s[80..][4..] == s[84..];
    assert s[80..][..4] == Slice(s, 80, 4) && s[84..][..4] == Slice(s, 84, 4) && s[84..][4..] == Slice(s, 88, 4);
    Numbers32At(s);
    Read64At(s, 24);
    Read64At(s, 32);
    Read64At(s, 40);
    Read64At(s, 48);
    GuidFieldsAt(s, 56);
    Read64At(s, 72);
  }

  lemma Numbers32At(s: seq<byte>)
    requires |s| == HEADER_BYTES
    ensures Read32(Slice(s, 8, 4)) == U32At(s, 8) && Read32(Slice(s, 12, 4)) == U32At(s, 12)
    ensures Read32(Slice(s, 16, 4)) == U32At(s, 16) && Read32(Slice(s, 20, 4)) == U32At(s, 20)
    ensures Read32(Slice(s, 80, 4)) == U32At(s, 80) && Read32(Slice(s, 84, 4)) == U32At(s, 84)
    ensures Read32(Slice(s, 88, 4)) == U32At(s, 88)
  {
    hide Read32, U32At;
    Read32At(s, 8);
    Read32At(s, 12);
    Read32At(s, 16);
    Read32At(s, 20);
    Read32At(s, 80);
    Read32At(s, 84);
    Read32At(s, 88);
  }

  lemma {:induction false} NameUnitAt(s: seq<byte>, n: nat, j: nat)
    requires |s| == 2 * n && j < n
    ensures DecodeName(s, n)[j] == U16At(s, 2 * j)
  {
    if j == 0 {
      Read16At(s, 0);
      assert s[..2] == Slice(s, 0, 2);
    } else {
      NameUnitAt(s[2..], n - 1, j - 1);
    }
  }

  /** What the bytes of an entry say (UEFI Specification, section 5.3.3). */
  predicate EntrySays(s: seq<byte>, e: Entry)
    requires |s| >= ENTRY_BYTES
  {
    && e.typeGuid == GuidAt(s, 0) && e.partGuid == GuidAt(s, 16)
    && e.firstLba == U64At(s, 32) && e.lastLba == U64At(s, 40) && e.flags == U64At(s, 48)
    && (forall j :: 0 <= j < NAME_UNITS ==> e.name[j] == U16At(s, 56 + 2 * j))
    && e.pad == s[ENTRY_BYTES..]
  }

  lemma EntryFieldsAt(s: seq<byte>)
    requires |s| >= ENTRY_BYTES
    ensures EntrySays(s, DecodeEntry(s))
  {
    hide Read64, U64At, DecodeGuid, GuidAt, DecodeName;
    assert s[..16] == Slice(s, 0, 16) && s[16..][..16] == Slice(s, 16, 16) && s[16..][16..] == s[32..];
    assert s[32..][..8] == Slice(s, 32, 8) && s[32..][8..] == s[40..] && s[40..][..8] == Slice(s, 40, 8);
    assert s[40..][8..] == s[48..] && s[48..][..8] == Slice(s, 48, 8) && s[48..][8..] == s[56..];
    assert s[56..][72..] == s[ENTRY_BYTES..];
    GuidFieldsAt(s, 0);
    GuidFieldsAt(s, 16);
    Read64At(s, 32);
    Read64At(s, 40);
    Read64At(s, 48);
    forall j | 0 <= j < NAME_UNITS ensures DecodeEntry(s).name[j] == U16At(s, 56 + 2 * j) {
      NameUnitAt(s[56..][..72], NAME_UNITS, j);
    }
  }

  /** Entry k of an array lies at k times the entry size. */
  lemma {:induction false} EntryAt(s: seq<byte>, n: nat, size: nat, k: nat)
    requires size >= ENTRY_BYTES && |s| == n * size && k < n
    ensures 0 <= k * size && k * size + size <= |s|
    ensures DecodeEntries(s, n, size)[k] == DecodeEntry(Slice(s, k * size, size))
  {
    hide DecodeEntry;
    assert n * size == (n - 1) * size + size;
    MulLe(k + 1, n, size);
    MulLe(0, k, size);
    assert (k + 1) * size == k * size + size;
    if k == 0 {
      assert s[..size] == Slice(s, 0, size);
    } else {
      assert k * size == (k - 1) * size + size;
      EntryAt(s[size..], n - 1, size, k - 1);
      assert Slice(s[size..], (k - 1) * size, size) == Slice(s, k * size, size);
    }
  }

  /** CRC32 as an unknown function of the bytes. */
  type Checksum = seq<byte> -> uint32

  /** The checksum of the first n bytes of a header, its checksum field taken as zero. */
  function HeaderSum(crc: Checksum, raw: seq<byte>, n: nat): uint32
    requires |raw| == HEADER_BYTES && n <= HEADER_BYTES
  {
    crc(Splice(raw, 16, Zeros(4))[..n])
  }

  /** The first n bytes of a header with zeros for its checksum. */
  function WithoutSum(raw: seq<byte>, n: nat): (r: seq<byte>)
    requires n <= |raw|
  {
    seq(n, i requires 0 <= i < n => if 16 <= i < 20 then 0 else raw[i])
  }

  lemma SumCovers(crc: Checksum, raw: seq<byte>, n: nat)
    requires |raw| == HEADER_BYTES && n <= HEADER_BYTES
    ensures HeaderSum(crc, raw, n) == crc(WithoutSum(raw, n))
  {
    assert Splice(raw, 16, Zeros(4))[..n] == WithoutSum(raw, n);
  }

  /** The header with both checksums filled in. */
  function Sealed(crc: Checksum, h: Header, es: seq<Entry>): Header
    requires h.headerSize <= HEADER_BYTES
  {
    var h1 := h.(entriesCrc := crc(EncodeEntries(es)));
    h1.(crc32 := HeaderSum(crc, EncodeHeader(h1), h1.headerSize))
  }

  /** Filling in a header's checksum does not change what the checksum covers. */
  lemma SumIgnoresItself(crc: Checksum, h: Header, c: uint32, n: nat)
    requires n <= HEADER_BYTES
    ensures HeaderSum(crc, EncodeHeader(h.(crc32 := c)), n) == HeaderSum(crc, EncodeHeader(h), n)
  {
    hide LE, EncodeGuid;
    assert HeaderHead(h.(crc32 := c)) == HeaderHead(h) && HeaderTail(h.(crc32 := c)) == HeaderTail(h);
    SpliceMiddle(HeaderHead(h), LE(h.crc32, 4), HeaderTail(h), Zeros(4));
    SpliceMiddle(HeaderHead(h), LE(c, 4), HeaderTail(h), Zeros(4));
  }

  lemma SpliceMiddle(a: seq<byte>, b: seq<byte>, c: seq<byte>, d: seq<byte>)
    requires |b| == |d|
    ensures Splice(a + (b + c), |a|, d) == a + (d + c)
  {
  }
}
