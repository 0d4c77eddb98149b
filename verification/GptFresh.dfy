/** The empty table for a new disk, and where its parts lie. */
module GptFresh {
  import opened Arithmetic
  import opened Bytes
  import opened GptFormat
  import opened GptImage

  const NEW_ENTRIES: nat := 128
  const NEW_SPAN: nat := 16384

  /** An empty table, as the program lays it out for any sector size. */
  function NewTable(dev: Device, guid: Guid): (t: Table)
    requires dev.lbaSize > 0
    ensures t.Consistent() && t.Span() == NEW_SPAN
  {
    var size := 1 + NEW_SPAN / dev.lbaSize;
    var t := Table(
               HeaderFields(EFI_PART, 0x1_0000, HEADER_BYTES, 0, 0, 0, 0, U64(1 + size), U64(dev.sectors - (1 + size)), guid,
                            0, NEW_ENTRIES, ENTRY_BYTES, 0),
               seq(NEW_ENTRIES, _ => NoEntry([])));
    t
  }

  /** What the header of a new table says once it is written, beside the places: revision 1.0, 92 bytes,
      128 entries of 128 bytes, the disk's GUID. */
  lemma NewHeaderSays(crc: Checksum, dev: Device, guid: Guid)
    requires dev.lbaSize > 0
    ensures var t := NewTable(dev, guid);
      var raw := EncodeHeader(Sealed(crc, PrimaryHeader(t, dev), t.entries));
      && U32At(raw, 8) == 0x1_0000 && U32At(raw, 12) == 92 && U32At(raw, 20) == 0 && GuidAt(raw, 56) == guid
      && U32At(raw, 80) == 128 && U32At(raw, 84) == 128
      && forall k :: 0 <= k < 128 ==> t.entries[k] == NoEntry([])
  {
    hide EncodeHeader, DecodeHeader, EncodeEntries, HeaderSum, U32At, U64At, GuidAt;
    var t := NewTable(dev, guid);
    var h := Sealed(crc, PrimaryHeader(t, dev), t.entries);
    HeaderRoundTrip(h);
    HeaderFieldsAt(EncodeHeader(h));
  }

  /** The sector size divides the entries, and there is a usable sector. */
  predicate Suitable(dev: Device) {
    dev.Valid() && NEW_SPAN % dev.lbaSize == 0 && 4 * dev.lbaSize + 2 * NEW_SPAN <= dev.Size()
  }

  lemma UsableRange(dev: Device, guid: Guid)
    requires Suitable(dev)
    ensures var h := NewTable(dev, guid).header;
      && h.firstUsable * dev.lbaSize == 2 * dev.lbaSize + NEW_SPAN
      && (h.lastUsable + 1) * dev.lbaSize == dev.Size() - dev.lbaSize - NEW_SPAN
      && 1 <= h.firstUsable <= h.lastUsable < dev.sectors
  {
    var b, q := dev.lbaSize, NEW_SPAN / dev.lbaSize;
    assert q * b == NEW_SPAN;
    assert (2 + q) * b == 2 * b + NEW_SPAN;
    SectorsBack(dev.sectors, b, 2 * b + 2 * NEW_SPAN) by {
      assert 2 * b + 2 * NEW_SPAN == (2 + 2 * q) * b;
      DivModUnique(2 * b + 2 * NEW_SPAN, b, 2 + 2 * q, 0);
    }
    DivModUnique(2 * b + 2 * NEW_SPAN, b, 2 + 2 * q, 0) by {
      assert 2 * b + 2 * NEW_SPAN == b * (2 + 2 * q);
    }
    SectorsBack(dev.sectors, b, NEW_SPAN);
    Ordered(dev.sectors, b, q);
  }

  lemma Ordered(s: nat, b: nat, q: nat)
    requires b > 0 && 4 * b + 2 * (q * b) <= s * b
    ensures 4 + 2 * q <= s
  {
    if s < 4 + 2 * q {
      MulLe(s, 3 + 2 * q, b);
    }
  }

  /** The parts of a fresh table tile the disk: end of the first sector, primary header, primary
      entries, usable sectors, backup entries, backup header, with nothing between the entries and
      the usable sectors on either side. */
  lemma FreshPartsTile(dev: Device, guid: Guid)
    requires Suitable(dev)
    ensures var t := NewTable(dev, guid);
      && Roomy(t, dev)
      && MbrRegion().start + MbrRegion().size <= PrimaryHeaderRegion(dev).start
      && PrimaryHeaderRegion(dev).start + PrimaryHeaderRegion(dev).size <= PrimaryEntriesRegion(t, dev).start
      && PrimaryEntriesRegion(t, dev).start + PrimaryEntriesRegion(t, dev).size == t.header.firstUsable * dev.lbaSize
      && t.header.firstUsable * dev.lbaSize < (t.header.lastUsable + 1) * dev.lbaSize
      && (t.header.lastUsable + 1) * dev.lbaSize == BackupEntriesRegion(t, dev).start
      && BackupEntriesRegion(t, dev).start + BackupEntriesRegion(t, dev).size == BackupHeaderRegion(dev).start
      && BackupHeaderRegion(dev).start + BackupHeaderRegion(dev).size <= dev.Size()
  {
    UsableRange(dev, guid);
  }

  /** Writing a table of the fresh layout spares the boot code and every usable sector; the entries
      may be any. */
  lemma UsableSectorsSpared(crc: Checksum, disk: seq<byte>, t: Table, dev: Device, guid: Guid, i: nat)
    requires Suitable(dev) && |disk| == dev.Size() && t.Consistent()
    requires t.header == NewTable(dev, guid).header
    requires i < MBR_OFFSET || t.header.firstUsable * dev.lbaSize <= i < (t.header.lastUsable + 1) * dev.lbaSize
    ensures Writable(disk, t, dev) && i < |disk| && Written(crc, disk, t, dev)[i] == disk[i]
  {
    hide Written;
    FreshPartsTile(dev, guid);
    assert t.Span() == NewTable(dev, guid).Span();
    WriteTouchesRegionsOnly(crc, disk, t, dev, i);
  }

  /** The backup of a fresh table can be read exactly when sectors are no larger than the entries:
      on larger ones the program puts the backup entries on top of the backup header. */
  lemma BackupReadable(crc: Checksum, disk: seq<byte>, dev: Device, guid: Guid)
    requires dev.Valid() && (NEW_SPAN % dev.lbaSize == 0 || dev.lbaSize > NEW_SPAN)
    requires 4 * dev.lbaSize + 2 * NEW_SPAN <= dev.Size() && |disk| == dev.Size()
    ensures Writable(disk, NewTable(dev, guid), dev)
    ensures ReadCopy(crc, Written(crc, disk, NewTable(dev, guid), dev), dev, false).Ok? <==> dev.lbaSize <= NEW_SPAN
  {
    var t := NewTable(dev, guid);
    if dev.lbaSize <= NEW_SPAN {
      FreshPartsTile(dev, guid);
      BackupHolds(crc, disk, t, dev);
    } else {
      BackupBuried(crc, disk, t, dev);
    }
  }

  lemma BackupHolds(crc: Checksum, disk: seq<byte>, t: Table, dev: Device)
    requires Roomy(t, dev) && |disk| == dev.Size() && t.header.sig == EFI_PART
    ensures Writable(disk, t, dev) && ReadCopy(crc, Written(crc, disk, t, dev), dev, false).Ok?
  {
    hide EncodeHeader, EncodeEntries, ReadCopy, Written;
    Offsets(t, dev);
    CopiesWritten(crc, disk, t, dev);
    CopyReadsBack(crc, Written(crc, disk, t, dev), dev, false, BackupHeader(t, dev), t.entries,
                  dev.Size() - dev.lbaSize, BackupEntriesRegion(t, dev).start);
  }

  lemma BackupBuried(crc: Checksum, disk: seq<byte>, t: Table, dev: Device)
    requires dev.Valid() && t.Consistent() && 0 < t.Span() < dev.lbaSize && t.Span() >= ENTRY_BYTES
    requires 4 * dev.lbaSize + 2 * t.Span() <= dev.Size() && |disk| == dev.Size()
    requires t.entries != [] && t.entries[0].typeGuid == NoGuid()
    ensures Writable(disk, t, dev) && ReadCopy(crc, Written(crc, disk, t, dev), dev, false) == Err(BadSignature)
  {
    hide EncodeHeader, EncodeEntries, Written, DecodeHeader, HeaderSum, ReadEntries;
    SectorsBack(dev.sectors, dev.lbaSize, 0);
    BuriedHeader(crc, disk, t, dev);
    var raw := Slice(Written(crc, disk, t, dev), dev.Size() - dev.lbaSize, HEADER_BYTES);
    FirstBytes(t.entries);
    SignatureOf(raw);
    assert raw[0] == 0;
  }

  /** The backup header's first bytes are the entries'. */
  lemma BuriedHeader(crc: Checksum, disk: seq<byte>, t: Table, dev: Device)
    requires dev.Valid() && t.Consistent() && ENTRY_BYTES <= t.Span() < dev.lbaSize
    requires 4 * dev.lbaSize + 2 * t.Span() <= dev.Size() && |disk| == dev.Size()
    ensures |EncodeEntries(t.entries)| == t.Span()
    ensures Writable(disk, t, dev)
    ensures Slice(Written(crc, disk, t, dev), dev.Size() - dev.lbaSize, HEADER_BYTES) == EncodeEntries(t.entries)[..HEADER_BYTES]
  {
    hide EncodeHeader, EncodeEntries, Sealed, ProtectiveMbr, Splice;
    BuriedOffsets(t, dev);
    var d1 := WriteCopy(crc, disk, PrimaryHeader(t, dev), t.entries, dev);
    Buried(d1, dev.Size() - dev.lbaSize, EncodeHeader(Sealed(crc, BackupHeader(t, dev), t.entries)),
           EncodeEntries(t.entries), ProtectiveMbr(dev));
  }

  lemma BuriedOffsets(t: Table, dev: Device)
    requires dev.Valid() && t.Consistent() && t.Span() < dev.lbaSize && 4 * dev.lbaSize <= dev.Size()
    ensures |EncodeEntries(t.entries)| == t.Span()
    ensures U64(1 * dev.lbaSize) == dev.lbaSize && U64(2 * dev.lbaSize) == 2 * dev.lbaSize
    ensures U64(U64(dev.sectors - 1) * dev.lbaSize) == dev.Size() - dev.lbaSize
    ensures BackupHeader(t, dev).entriesStart == U64(dev.sectors - 1)
  {
    EntriesSize(t.entries, t.header.entrySize);
    SectorsBack(dev.sectors, dev.lbaSize, 0);
    NoWholeSector(t.Span(), dev.lbaSize);
    hide EncodeEntries;
  }

  lemma NoWholeSector(n: nat, b: nat)
    requires n < b
    ensures n / b == 0
  {
  }

  lemma Buried(disk: seq<byte>, at: nat, h: seq<byte>, es: seq<byte>, mbr: seq<byte>)
    requires MBR_OFFSET + MBR_BYTES <= at && at + |es| <= |disk| && |h| == HEADER_BYTES <= |es| && |mbr| == MBR_BYTES
    ensures Slice(Splice(Splice(Splice(disk, at, h), at, es), MBR_OFFSET, mbr), at, HEADER_BYTES) == es[..HEADER_BYTES]
  {
  }

  lemma FirstBytes(es: seq<Entry>)
    requires es != [] && es[0].typeGuid == NoGuid()
    ensures |EncodeEntries(es)| >= ENTRY_BYTES && EncodeEntries(es)[0] == 0
  {
    assert EncodeEntries(es)[0] == EncodeEntry(es[0])[0] == EncodeGuid(NoGuid())[0] == LE(0, 4)[0];
  }

  lemma SignatureOf(raw: seq<byte>)
    requires |raw| == HEADER_BYTES
    ensures DecodeHeader(raw).sig[0] == raw[0]
  {
  }
}
