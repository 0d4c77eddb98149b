/** A GUID partition table on a disk: what writing it does to the disk's bytes, and what reading
    them gives back. */
module GptImage {
  import opened Arithmetic
  import opened Bytes
  import opened GptFormat

  const EFI_PART: seq<byte> := [0x45, 0x46, 0x49, 0x20, 0x50, 0x41, 0x52, 0x54]
  const MBR_OFFSET: nat := 440
  const MBR_BYTES: nat := 72
  const MBR_TYPE_OFFSET: nat := 0x1c2
  const PROTECTIVE: byte := 0xee

  datatype Table = Table(header: Header, entries: seq<Entry>) {
    /** Bytes of the entries, in the 32 bits the program computes them in. */
    function EntriesBytes(): uint32 {
      Mul32(header.numEntries, header.entrySize)
    }

    /** The same as a plain product. */
    function Span(): nat {
      MulLe(0, header.entrySize, header.numEntries);
      header.numEntries * header.entrySize
    }

    /** The entries are as many and as large as the header says, and the sizes are sane. */
    predicate Consistent() {
      && |entries| == header.numEntries
      && header.entrySize >= ENTRY_BYTES
      && Uniform(entries, header.entrySize)
      && header.headerSize <= HEADER_BYTES
      && Span() < 0x1_0000_0000
    }
  }

  /** A disk of `sectors` sectors of `lbaSize` bytes. */
  datatype Device = Device(lbaSize: uint32, sectors: uint64) {
    predicate Valid() {
      512 <= lbaSize && Size() < 0x8000_0000_0000_0000
    }

    function Size(): nat {
      MulLe(0, lbaSize, sectors);
      sectors * lbaSize
    }
  }

  datatype ReadError = OutOfReach | BadSignature | BadHeaderSum | BadEntriesSum | Unsound | NoProtectiveMbr
  datatype ReadResult = Ok(table: Table) | Err(error: ReadError)

  /** One of the two copies, as it is read. */
  function ReadCopy(crc: Checksum, disk: seq<byte>, dev: Device, primary: bool): ReadResult {
    var offset := U64((if primary then 1 else U64(dev.sectors - 1)) * dev.lbaSize);
    if offset + HEADER_BYTES > |disk| then Err(OutOfReach) else
    var raw := Slice(disk, offset, HEADER_BYTES);
    var h := DecodeHeader(raw);
    if h.sig != EFI_PART then Err(BadSignature)
    else if h.headerSize > HEADER_BYTES then Err(Unsound)
    else if HeaderSum(crc, raw, h.headerSize) != h.crc32 then Err(BadHeaderSum)
    else ReadEntries(crc, disk, dev, h)
  }

  function ReadEntries(crc: Checksum, disk: seq<byte>, dev: Device, h: Header): ReadResult {
    var start := U64(h.entriesStart * dev.lbaSize);
    if h.entrySize < ENTRY_BYTES || h.numEntries * h.entrySize >= 0x1_0000_0000 then Err(Unsound) else
    var size: nat := h.numEntries * h.entrySize;
    if start + size > |disk| then Err(OutOfReach) else
    var bytes := Slice(disk, start, size);
    if crc(bytes) != h.entriesCrc then Err(BadEntriesSum)
    else Ok(Table(h, DecodeEntries(bytes, h.numEntries, h.entrySize)))
  }

  /** The reader: the protective record must be there, and the second copy stands in for the first. */
  function ReadGpt(crc: Checksum, disk: seq<byte>, dev: Device): ReadResult {
    if |disk| <= MBR_TYPE_OFFSET then Err(OutOfReach)
    else if disk[MBR_TYPE_OFFSET] != PROTECTIVE then Err(NoProtectiveMbr)
    else
      var first := ReadCopy(crc, disk, dev, true);
      if first.Ok? then first else ReadCopy(crc, disk, dev, false)
  }

  const EFI_PART_TEXT: string := "EFI PART"

  /** The bytes of one copy, as the standard asks for them: the signature, the checksum of the header
      without itself, and the checksum of the entries. Sizes that the program cannot hold are unsound. */
  predicate SoundCopy(crc: Checksum, disk: seq<byte>, dev: Device, primary: bool) {
    var at := U64((if primary then 1 else U64(dev.sectors - 1)) * dev.lbaSize);
    at + HEADER_BYTES <= |disk| &&
    var raw := Slice(disk, at, HEADER_BYTES);
    && (forall i :: 0 <= i < 8 ==> raw[i] == EFI_PART_TEXT[i] as int)
    && U32At(raw, 12) <= HEADER_BYTES && crc(WithoutSum(raw, U32At(raw, 12))) == U32At(raw, 16)
    && SoundEntries(crc, disk, U64(U64At(raw, 72) * dev.lbaSize), U32At(raw, 80), U32At(raw, 84), U32At(raw, 88))
  }

  predicate SoundEntries(crc: Checksum, disk: seq<byte>, start: nat, n: nat, size: nat, sum: uint32) {
    MulLe(0, size, n);
    && size >= ENTRY_BYTES && n * size < 0x1_0000_0000 && start + n * size <= |disk|
    && crc(Slice(disk, start, n * size)) == sum
  }

  /** The reader accepts exactly the sound copies. */
  lemma AcceptsSoundCopies(crc: Checksum, disk: seq<byte>, dev: Device, primary: bool)
    ensures ReadCopy(crc, disk, dev, primary).Ok? <==> SoundCopy(crc, disk, dev, primary)
  {
    hide DecodeHeader, HeaderSum, DecodeEntries, U32At, U64At, WithoutSum, U64;
    var at := U64((if primary then 1 else U64(dev.sectors - 1)) * dev.lbaSize);
    if at + HEADER_BYTES <= |disk| {
      var raw := Slice(disk, at, HEADER_BYTES);
      HeaderFieldsAt(raw);
      SignatureIs(Slice(raw, 0, 8));
      if U32At(raw, 12) <= HEADER_BYTES {
        SumCovers(crc, raw, U32At(raw, 12));
      }
      MulLe(0, U32At(raw, 84), U32At(raw, 80));
    }
  }

  lemma SignatureIs(s: seq<byte>)
    requires |s| == 8
    ensures s == EFI_PART <==> forall i :: 0 <= i < 8 ==> s[i] == EFI_PART_TEXT[i] as int
  {
  }

  /** Entry k of a table read is what the bytes at its place say. */
  predicate EntryReadAt(disk: seq<byte>, start: nat, size: nat, k: nat, e: Entry)
    requires size >= ENTRY_BYTES
  {
    MulLe(0, k, size);
    start + k * size + size <= |disk| && EntrySays(Slice(disk, start + k * size, size), e)
  }

  lemma EntriesRead(crc: Checksum, disk: seq<byte>, dev: Device, h: Header, k: nat)
    requires ReadEntries(crc, disk, dev, h).Ok?
    ensures var t := ReadEntries(crc, disk, dev, h).table;
      && t.header == h && |t.entries| == h.numEntries && h.entrySize >= ENTRY_BYTES
      && (k < |t.entries| ==> EntryReadAt(disk, U64(h.entriesStart * dev.lbaSize), h.entrySize, k, t.entries[k]))
  {
    hide DecodeEntry, DecodeEntries, EntrySays, U64, Slice;
    MulLe(0, h.entrySize, h.numEntries);
    var start, size, n: nat := U64(h.entriesStart * dev.lbaSize), h.entrySize, h.numEntries * h.entrySize;
    if k < h.numEntries {
      EntryAt(Slice(disk, start, n), h.numEntries, size, k);
      SliceInSlice(disk, start, n, k * size, size);
      EntryFieldsAt(Slice(disk, start + k * size, size));
    }
  }

  /** The table read is what the bytes say: the header, and every entry. */
  lemma ReadsWhatIsThere(crc: Checksum, disk: seq<byte>, dev: Device, primary: bool, k: nat)
    requires ReadCopy(crc, disk, dev, primary).Ok?
    ensures var at, t := U64((if primary then 1 else U64(dev.sectors - 1)) * dev.lbaSize), ReadCopy(crc, disk, dev, primary).table;
      && at + HEADER_BYTES <= |disk| && HeaderSays(Slice(disk, at, HEADER_BYTES), t.header)
      && |t.entries| == t.header.numEntries && t.header.entrySize >= ENTRY_BYTES
      && (k < |t.entries| ==> EntryReadAt(disk, U64(t.header.entriesStart * dev.lbaSize), t.header.entrySize, k, t.entries[k]))
  {
    hide DecodeHeader, HeaderSum, ReadEntries, EntryReadAt, HeaderSays, U64, Slice;
    var at := U64((if primary then 1 else U64(dev.sectors - 1)) * dev.lbaSize);
    HeaderFieldsAt(Slice(disk, at, HEADER_BYTES));
    EntriesRead(crc, disk, dev, DecodeHeader(Slice(disk, at, HEADER_BYTES)), k);
  }

  /** A table is read exactly where the protective record is there and a copy is sound, the primary
      copy's if that is sound. */
  lemma ReadsExactly(crc: Checksum, disk: seq<byte>, dev: Device)
    ensures ReadGpt(crc, disk, dev).Ok? <==>
            && |disk| > MBR_TYPE_OFFSET && disk[MBR_TYPE_OFFSET] == 0xee
            && (SoundCopy(crc, disk, dev, true) || SoundCopy(crc, disk, dev, false))
    ensures ReadGpt(crc, disk, dev).Ok? ==>
              ReadGpt(crc, disk, dev) == ReadCopy(crc, disk, dev, SoundCopy(crc, disk, dev, true))
  {
    hide ReadCopy, SoundCopy;
    AcceptsSoundCopies(crc, disk, dev, true);
    AcceptsSoundCopies(crc, disk, dev, false);
  }

  function PrimaryHeader(t: Table, dev: Device): Header {
    t.header.(currentLba := 1, backupLba := U64(dev.sectors - 1), entriesStart := 2)
  }

  function BackupHeader(t: Table, dev: Device): Header
    requires dev.lbaSize > 0
  {
    t.header.(currentLba := U64(dev.sectors - 1), backupLba := 1,
              entriesStart := U64(U64(dev.sectors - 1) - t.EntriesBytes() / dev.lbaSize))
  }

  /** Both writes of a copy stay on the disk. */
  predicate CopyFits(disk: seq<byte>, h: Header, es: seq<Entry>, dev: Device) {
    && U64(h.currentLba * dev.lbaSize) + HEADER_BYTES <= |disk|
    && U64(h.entriesStart * dev.lbaSize) + |EncodeEntries(es)| <= |disk|
  }

  /** The disk after one copy is written: the header, then the entries. */
  function WriteCopy(crc: Checksum, disk: seq<byte>, h: Header, es: seq<Entry>, dev: Device): (r: seq<byte>)
    requires h.headerSize <= HEADER_BYTES && CopyFits(disk, h, es, dev)
    ensures |r| == |disk|
  {
    Splice(Splice(disk, U64(h.currentLba * dev.lbaSize), EncodeHeader(Sealed(crc, h, es))),
           U64(h.entriesStart * dev.lbaSize), EncodeEntries(es))
  }

  /** Bytes 440 to 511 of the protective record: one partition of type EE from sector 1 on. */
  function ProtectiveMbr(dev: Device): (s: seq<byte>)
    ensures |s| == MBR_BYTES && s[10] == PROTECTIVE
  {
    var count := if U64(dev.sectors - 1) < 0xffff_ffff then U64(dev.sectors - 1) else 0xffff_ffff;
    Zeros(10) + [PROTECTIVE] + Zeros(3) + LE(1, 4) + LE(count, 4) + Zeros(48) + [0x55, 0xaa]
  }

  /** Room for all writes. */
  predicate Writable(disk: seq<byte>, t: Table, dev: Device) {
    && t.Consistent() && dev.Valid()
    && MBR_OFFSET + MBR_BYTES <= |disk|
    && CopyFits(disk, PrimaryHeader(t, dev), t.entries, dev)
    && CopyFits(disk, BackupHeader(t, dev), t.entries, dev)
  }

  /** The disk after a table is written: primary copy, backup copy, protective record. */
  function Written(crc: Checksum, disk: seq<byte>, t: Table, dev: Device): (r: seq<byte>)
    requires Writable(disk, t, dev)
    ensures |r| == |disk|
  {
    var d1 := WriteCopy(crc, disk, PrimaryHeader(t, dev), t.entries, dev);
    var d2 := WriteCopy(crc, d1, BackupHeader(t, dev), t.entries, dev);
    Splice(d2, MBR_OFFSET, ProtectiveMbr(dev))
  }

  /** The two copies keep clear of each other, and the entries fill whole sectors. */
  predicate Roomy(t: Table, dev: Device) {
    && t.Consistent() && dev.Valid()
    && t.Span() % dev.lbaSize == 0
    && 3 * dev.lbaSize + 2 * t.Span() <= dev.Size()
  }

  /** The bytes that hold the parts of a written table, as offset and length. */
  datatype Region = Region(start: int, size: nat) {
    predicate Holds(i: int) {
      start <= i < start + size
    }
  }

  function MbrRegion(): Region {
    Region(MBR_OFFSET, MBR_BYTES)
  }

  function PrimaryHeaderRegion(dev: Device): Region {
    Region(dev.lbaSize, HEADER_BYTES)
  }

  function PrimaryEntriesRegion(t: Table, dev: Device): Region {
    Region(2 * dev.lbaSize, t.Span())
  }

  function BackupEntriesRegion(t: Table, dev: Device): Region {
    Region(dev.Size() - dev.lbaSize - t.Span(), t.Span())
  }

  function BackupHeaderRegion(dev: Device): Region {
    Region(dev.Size() - dev.lbaSize, HEADER_BYTES)
  }

  /** Where the program's 64-bit arithmetic puts the copies, on a roomy disk. */
  lemma Offsets(t: Table, dev: Device)
    requires Roomy(t, dev)
    ensures |EncodeEntries(t.entries)| == t.Span()
    ensures U64(1 * dev.lbaSize) == dev.lbaSize && U64(2 * dev.lbaSize) == 2 * dev.lbaSize
    ensures U64(U64(dev.sectors - 1) * dev.lbaSize) == dev.Size() - dev.lbaSize
    ensures U64(BackupHeader(t, dev).entriesStart * dev.lbaSize) == BackupEntriesRegion(t, dev).start
  {
    EntriesSize(t.entries, t.header.entrySize);
    SectorsBack(dev.sectors, dev.lbaSize, t.Span());
    assert t.EntriesBytes() == t.Span();
  }

  /** n bytes in whole sectors, counted back from the last sector. */
  lemma SectorsBack(s: uint64, b: nat, n: nat)
    requires 512 <= b && s * b < 0x8000_0000_0000_0000 && n % b == 0 && b + n <= s * b
    ensures U64(s - 1) == s - 1 && (s - 1) * b == s * b - b
    ensures U64(s - 1 - n / b) == s - 1 - n / b
    ensures (s - 1 - n / b) * b == s * b - b - n
  {
    var q := n / b;
    assert q * b == n;
    assert (s - 1) * b == s * b - b;
    if s - 1 < q {
      MulLe(s, q, b);
    }
    assert (s - 1 - q) * b == (s - 1) * b - q * b;
  }

  /** A written copy reads back, whatever else the disk holds. */
  lemma CopyReadsBack(crc: Checksum, disk: seq<byte>, dev: Device, primary: bool, h: Header, es: seq<Entry>, at: nat, start: nat)
    requires Table(h, es).Consistent() && h.sig == EFI_PART
    requires at == U64((if primary then 1 else U64(dev.sectors - 1)) * dev.lbaSize) && at + HEADER_BYTES <= |disk|
    requires start == U64(h.entriesStart * dev.lbaSize) && start + |EncodeEntries(es)| <= |disk|
    requires Slice(disk, at, HEADER_BYTES) == EncodeHeader(Sealed(crc, h, es))
    requires Slice(disk, start, |EncodeEntries(es)|) == EncodeEntries(es)
    ensures ReadCopy(crc, disk, dev, primary) == Ok(Table(Sealed(crc, h, es), es))
  {
    hide EncodeHeader, DecodeHeader, HeaderSum, EncodeEntries, DecodeEntries;
    var s := Sealed(crc, h, es);
    HeaderRoundTrip(s);
    SumIgnoresItself(crc, h.(entriesCrc := s.entriesCrc), s.crc32, h.headerSize);
    EntriesRoundTrip(es, h.entrySize);
    assert ReadEntries(crc, disk, dev, s) == Ok(Table(s, es));
  }

  /** Both copies and the protective record lie on the disk. */
  predicate HoldsCopies(crc: Checksum, w: seq<byte>, t: Table, dev: Device)
    requires Roomy(t, dev) && |w| == dev.Size()
  {
    && Slice(w, dev.lbaSize, HEADER_BYTES) == EncodeHeader(Sealed(crc, PrimaryHeader(t, dev), t.entries))
    && Slice(w, 2 * dev.lbaSize, t.Span()) == EncodeEntries(t.entries)
    && Slice(w, dev.Size() - dev.lbaSize, HEADER_BYTES) == EncodeHeader(Sealed(crc, BackupHeader(t, dev), t.entries))
    && Slice(w, dev.Size() - dev.lbaSize - t.Span(), t.Span()) == EncodeEntries(t.entries)
    && Slice(w, MBR_OFFSET, MBR_BYTES) == ProtectiveMbr(dev) && w[MBR_TYPE_OFFSET] == PROTECTIVE
  }

  /** The disk after writing, as four splices at plain offsets and the protective record. */
  lemma WrittenPlainly(crc: Checksum, disk: seq<byte>, t: Table, dev: Device)
    requires Roomy(t, dev) && |disk| == dev.Size()
    ensures Writable(disk, t, dev)
    ensures |EncodeEntries(t.entries)| == t.Span()
    ensures Written(crc, disk, t, dev) ==
            FiveSplices(disk, dev.lbaSize, t.Span(), EncodeHeader(Sealed(crc, PrimaryHeader(t, dev), t.entries)),
                        EncodeHeader(Sealed(crc, BackupHeader(t, dev), t.entries)), EncodeEntries(t.entries), ProtectiveMbr(dev))
  {
    hide EncodeHeader, EncodeEntries, Sealed, ProtectiveMbr, Splice;
    Offsets(t, dev);
  }

  function FiveSplices(disk: seq<byte>, lba: nat, n: nat, h1: seq<byte>, h2: seq<byte>, es: seq<byte>, mbr: seq<byte>): seq<byte>
    requires 512 <= lba && 3 * lba + 2 * n <= |disk|
    requires |h1| == |h2| == HEADER_BYTES && |es| == n && |mbr| == MBR_BYTES
  {
    Splice(Splice(Splice(Splice(Splice(disk, lba, h1), 2 * lba, es), |disk| - lba, h2), |disk| - lba - n, es), MBR_OFFSET, mbr)
  }

  /** Writing leaves both copies readable in their places. */
  lemma CopiesWritten(crc: Checksum, disk: seq<byte>, t: Table, dev: Device)
    requires Roomy(t, dev) && |disk| == dev.Size()
    ensures Writable(disk, t, dev) && HoldsCopies(crc, Written(crc, disk, t, dev), t, dev)
  {
    hide EncodeHeader, EncodeEntries, Sealed, ProtectiveMbr, Written, FiveSplices;
    WrittenPlainly(crc, disk, t, dev);
    SplicesHold(disk, dev.lbaSize, t.Span(), EncodeHeader(Sealed(crc, PrimaryHeader(t, dev), t.entries)),
                EncodeHeader(Sealed(crc, BackupHeader(t, dev), t.entries)), EncodeEntries(t.entries), ProtectiveMbr(dev));
  }

  lemma SplicesHold(disk: seq<byte>, lba: nat, n: nat, h1: seq<byte>, h2: seq<byte>, es: seq<byte>, mbr: seq<byte>)
    requires 512 <= lba && 3 * lba + 2 * n <= |disk|
    requires |h1| == |h2| == HEADER_BYTES && |es| == n && |mbr| == MBR_BYTES
    ensures var w, size := FiveSplices(disk, lba, n, h1, h2, es, mbr), |disk|;
      && |w| == size
      && Slice(w, lba, HEADER_BYTES) == h1 && Slice(w, 2 * lba, n) == es
      && Slice(w, size - lba, HEADER_BYTES) == h2 && Slice(w, size - lba - n, n) == es
      && Slice(w, MBR_OFFSET, MBR_BYTES) == mbr && w[MBR_TYPE_OFFSET] == mbr[10]
      && forall i :: 0 <= i < size
           && !(MBR_OFFSET <= i < MBR_OFFSET + MBR_BYTES) && !(lba <= i < lba + HEADER_BYTES) && !(2 * lba <= i < 2 * lba + n)
           && !(size - lba - n <= i < size - lba) && !(size - lba <= i < size - lba + HEADER_BYTES)
           ==> w[i] == disk[i]
  {
  }

  /** What a reader gets to see of a table: all but the places of the copies and the checksums. */
  predicate SameTable(a: Table, b: Table) {
    && a.entries == b.entries
    && a.header.revision == b.header.revision && a.header.diskGuid == b.header.diskGuid
    && a.header.firstUsable == b.header.firstUsable && a.header.lastUsable == b.header.lastUsable
    && a.header.numEntries == b.header.numEntries && a.header.entrySize == b.header.entrySize
  }

  /** After a table is written, reading gives it back, from the primary copy. */
  lemma WriteThenRead(crc: Checksum, disk: seq<byte>, t: Table, dev: Device)
    requires Roomy(t, dev) && |disk| == dev.Size() && t.header.sig == EFI_PART
    ensures Writable(disk, t, dev)
    ensures var r := ReadGpt(crc, Written(crc, disk, t, dev), dev);
      r == Ok(Table(Sealed(crc, PrimaryHeader(t, dev), t.entries), t.entries)) && SameTable(r.table, t)
    ensures SoundCopy(crc, Written(crc, disk, t, dev), dev, true)
  {
    hide EncodeHeader, EncodeEntries, ReadCopy, Written, SoundCopy;
    AcceptsSoundCopies(crc, Written(crc, disk, t, dev), dev, true) by {
      CopiesWritten(crc, disk, t, dev);
    }
    Offsets(t, dev);
    CopiesWritten(crc, disk, t, dev);
    CopyReadsBack(crc, Written(crc, disk, t, dev), dev, true, PrimaryHeader(t, dev), t.entries, dev.lbaSize, 2 * dev.lbaSize);
  }

  /** The places that a written table's headers name. */
  lemma WrittenFields(crc: Checksum, disk: seq<byte>, t: Table, dev: Device)
    requires Roomy(t, dev) && |disk| == dev.Size()
    ensures Writable(disk, t, dev)
    ensures var w, last := Written(crc, disk, t, dev), dev.Size() - dev.lbaSize;
      && U64At(w, dev.lbaSize + 24) == 1 && U64At(w, dev.lbaSize + 32) == dev.sectors - 1 && U64At(w, dev.lbaSize + 72) == 2
      && U64At(w, last + 24) == dev.sectors - 1 && U64At(w, last + 32) == 1
      && U64At(w, last + 72) * dev.lbaSize == last - t.Span()
  {
    hide EncodeHeader, EncodeEntries, Written, Sealed, U64At, ProtectiveMbr, Slice;
    CopiesWritten(crc, disk, t, dev);
    var w := Written(crc, disk, t, dev);
    SealedHeaderAt(crc, PrimaryHeader(t, dev), t.entries, w, dev.lbaSize);
    SealedHeaderAt(crc, BackupHeader(t, dev), t.entries, w, dev.Size() - dev.lbaSize);
    SectorsBack(dev.sectors, dev.lbaSize, t.Span());
    assert t.EntriesBytes() == t.Span();
  }

  lemma SealedHeaderAt(crc: Checksum, h: Header, es: seq<Entry>, w: seq<byte>, at: nat)
    requires h.headerSize <= HEADER_BYTES && at + HEADER_BYTES <= |w|
    requires Slice(w, at, HEADER_BYTES) == EncodeHeader(Sealed(crc, h, es))
    ensures U64At(w, at + 24) == h.currentLba && U64At(w, at + 32) == h.backupLba && U64At(w, at + 72) == h.entriesStart
  {
    hide EncodeHeader, DecodeHeader, EncodeEntries, HeaderSum, U64At, U32At;
    HeaderRoundTrip(Sealed(crc, h, es));
    HeaderFieldsAt(Slice(w, at, HEADER_BYTES));
    NumbersInSlice(w, at, HEADER_BYTES, 24);
    NumbersInSlice(w, at, HEADER_BYTES, 32);
    NumbersInSlice(w, at, HEADER_BYTES, 72);
  }

  /** The protective record: one inactive partition of type EE from sector 1 to the end of the disk, or
      as far as 32 bits go, and the signature. */
  lemma ProtectiveRecord(crc: Checksum, disk: seq<byte>, t: Table, dev: Device)
    requires Roomy(t, dev) && |disk| == dev.Size()
    ensures Writable(disk, t, dev)
    ensures var w := Written(crc, disk, t, dev);
      && w[446] == 0 && w[450] == 0xee && U32At(w, 454) == 1
      && U32At(w, 458) == (if dev.sectors > 0x1_0000_0000 then 0xffff_ffff else dev.sectors - 1)
      && (forall i :: 462 <= i < 510 ==> w[i] == 0) && w[510] == 0x55 && w[511] == 0xaa
  {
    hide Written, ProtectiveMbr, U32At;
    CopiesWritten(crc, disk, t, dev);
    var w := Written(crc, disk, t, dev);
    SectorsBack(dev.sectors, dev.lbaSize, 0);
    MbrFields(dev);
    NumbersInSlice(w, MBR_OFFSET, MBR_BYTES, 14);
    NumbersInSlice(w, MBR_OFFSET, MBR_BYTES, 18);
    assert forall i :: 0 <= i < MBR_BYTES ==> w[MBR_OFFSET + i] == Slice(w, MBR_OFFSET, MBR_BYTES)[i];
    assert forall i :: 462 <= i < 510 ==> w[i] == w[MBR_OFFSET + (i - MBR_OFFSET)];
  }

  lemma MbrFields(dev: Device)
    ensures var m := ProtectiveMbr(dev);
      && m[6] == 0 && m[10] == 0xee && U32At(m, 14) == 1
      && U32At(m, 18) == (if U64(dev.sectors - 1) < 0xffff_ffff then U64(dev.sectors - 1) else 0xffff_ffff)
      && (forall i :: 22 <= i < 70 ==> m[i] == 0) && m[70] == 0x55 && m[71] == 0xaa
  {
    hide LE, U32At, Read32;
    var m := ProtectiveMbr(dev);
    var count := if U64(dev.sectors - 1) < 0xffff_ffff then U64(dev.sectors - 1) else 0xffff_ffff;
    assert Slice(m, 14, 4) == LE(1, 4) && Slice(m, 18, 4) == LE(count, 4);
    Read32At(m, 14);
    Read32At(m, 18);
    Read32OfLE(1);
    Read32OfLE(count);
  }

  /** Damage to the primary header and entries only. */
  ghost predicate DamagedPrimary(before: seq<byte>, after: seq<byte>, t: Table, dev: Device) {
    && |after| == |before|
    && forall i :: 0 <= i < |before| && !PrimaryHeaderRegion(dev).Holds(i) && !PrimaryEntriesRegion(t, dev).Holds(i) ==>
         after[i] == before[i]
  }

  /** Whatever happens to the primary copy: exactly where its bytes are no longer sound, reading gives
      the same table from the backup. */
  lemma FallbackReads(crc: Checksum, disk: seq<byte>, t: Table, dev: Device, damaged: seq<byte>)
    requires Roomy(t, dev) && |disk| == dev.Size() && t.header.sig == EFI_PART
    requires Writable(disk, t, dev) && DamagedPrimary(Written(crc, disk, t, dev), damaged, t, dev)
    ensures SoundCopy(crc, damaged, dev, false)
    ensures var r := ReadGpt(crc, damaged, dev);
      if SoundCopy(crc, damaged, dev, true) then r == ReadCopy(crc, damaged, dev, true)
      else r == Ok(Table(Sealed(crc, BackupHeader(t, dev), t.entries), t.entries)) && SameTable(r.table, t)
  {
    hide EncodeHeader, EncodeEntries, ReadCopy, Written, SoundCopy;
    Offsets(t, dev);
    AcceptsSoundCopies(crc, damaged, dev, true);
    AcceptsSoundCopies(crc, damaged, dev, false);
    var w := Written(crc, disk, t, dev);
    CopiesWritten(crc, disk, t, dev);
    var hdr, ent := dev.Size() - dev.lbaSize, BackupEntriesRegion(t, dev).start;
    assert Slice(damaged, hdr, HEADER_BYTES) == Slice(w, hdr, HEADER_BYTES);
    assert Slice(damaged, ent, t.Span()) == Slice(w, ent, t.Span());
    CopyReadsBack(crc, damaged, dev, false, BackupHeader(t, dev), t.entries, hdr, ent);
  }

  /** Writing a table changes no byte outside its five regions. */
  lemma WriteTouchesRegionsOnly(crc: Checksum, disk: seq<byte>, t: Table, dev: Device, i: nat)
    requires Roomy(t, dev) && |disk| == dev.Size() && i < |disk|
    requires !MbrRegion().Holds(i) && !PrimaryHeaderRegion(dev).Holds(i) && !PrimaryEntriesRegion(t, dev).Holds(i)
    requires !BackupEntriesRegion(t, dev).Holds(i) && !BackupHeaderRegion(dev).Holds(i)
    ensures Writable(disk, t, dev) && Written(crc, disk, t, dev)[i] == disk[i]
  {
    hide EncodeHeader, EncodeEntries, Sealed, ProtectiveMbr, Written, FiveSplices;
    WrittenPlainly(crc, disk, t, dev);
    SplicesHold(disk, dev.lbaSize, t.Span(), EncodeHeader(Sealed(crc, PrimaryHeader(t, dev), t.entries)),
                EncodeHeader(Sealed(crc, BackupHeader(t, dev), t.entries)), EncodeEntries(t.entries), ProtectiveMbr(dev));
  }
}
