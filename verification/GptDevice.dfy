/** The table in memory, edited in place, and its traffic with the disk. */
module GptDevice {
  import opened Bytes
  import opened GptFormat
  import opened GptFresh
  import opened GptImage
  import opened GptSpace
  import opened GptTable
  import opened Storage

  class Gpt {
    const dev: Device
    var header: Header
    var entries: array<Entry>

    function Table(): Table
      reads this, entries
    {
      GptImage.Table(header, entries[..])
    }

    ghost predicate Valid()
      reads this, entries
    {
      Table().Consistent()
    }

    constructor (dev: Device)
      ensures this.dev == dev && fresh(entries)
    {
      this.dev := dev;
      header := HeaderFields(Zeros(8), 0, 0, 0, 0, 0, 0, 0, 0, NoGuid(), 0, 0, 0, 0);
      entries := new Entry[0];
    }

    /** Start an empty table. */
    method New(guid: Guid)
      requires dev.lbaSize > 0
      modifies this
      ensures Table() == NewTable(dev, guid) && fresh(entries)
    {
      var size := 1 + NEW_ENTRIES * ENTRY_BYTES / dev.lbaSize;
      header := HeaderFields(EFI_PART, 0x1_0000, HEADER_BYTES, 0, 0, 0, 0, U64(1 + size), U64(dev.sectors - (1 + size)), guid,
                             0, NEW_ENTRIES, ENTRY_BYTES, 0);
      entries := new Entry[NEW_ENTRIES](_ => NoEntry([]));
      assert Table().entries == NewTable(dev, guid).entries;
    }

    /** The smallest index not in use, 0 if there is none. */
    method NextIndex() returns (index: nat)
      requires Valid()
      ensures index == NextIndexFrom(Table().entries, 0)
    {
      for i := 0 to header.numEntries
        invariant NextIndexFrom(Table().entries, 0) == NextIndexFrom(Table().entries, i)
      {
        if entries[i].firstLba == 0 {
          return i + 1;
        }
      }
      return 0;
    }

    method EntryCreate(s: Spec) returns (index: nat)
      requires Valid()
      modifies entries
      ensures Valid()
      ensures Table() == old(Table()).(entries := Created(old(Table().entries), s))
      ensures index == CreatedIndex(old(Table().entries), s)
    {
      ghost var es := entries[..];
      var i := NextIndex();
      if i == 0 || i > header.numEntries {
        return 0;
      }
      entries[i - 1] := entries[i - 1].(flags := s.flags);
      entries[i - 1] := entries[i - 1].(firstLba := s.first);
      entries[i - 1] := entries[i - 1].(lastLba := s.last);
      if |s.name| > NAME_MAX {
        assert entries[..] == Created(es, s);
        return 0;
      }
      entries[i - 1] := entries[i - 1].(name := SetName(entries[i - 1].name, s.name));
      entries[i - 1] := entries[i - 1].(typeGuid := TypeGuid(s.ptype));
      entries[i - 1] := entries[i - 1].(partGuid := s.guid);
      assert entries[..] == Created(es, s);
      index := i;
    }

    method EntryDelete(index: nat) returns (ok: bool)
      requires Valid()
      modifies entries
      ensures Valid()
      ensures ok <==> 1 <= index <= header.numEntries
      ensures Table() == old(Table()).(entries := Deleted(old(Table().entries), index))
    {
      ghost var es := entries[..];
      if index == 0 || index > header.numEntries {
        return false;
      }
      entries[index - 1] := NoEntry(entries[index - 1].pad);
      assert entries[..] == Deleted(es, index);
      ok := true;
    }

    method EntrySetName(index: nat, s: CString) returns (ok: bool)
      requires Valid() && 1 <= index <= header.numEntries
      modifies entries
      ensures Valid()
      ensures ok <==> |s| <= NAME_MAX
      ensures Table() == old(Table()).(entries :=
                if |s| <= NAME_MAX then Renamed(old(Table().entries), index, s) else old(Table().entries))
    {
      ghost var es := entries[..];
      if |s| > NAME_MAX {
        return false;
      }
      var name := entries[index - 1].name;
      for i := 0 to |s|
        invariant |name| == NAME_UNITS
        invariant forall k :: 0 <= k < NAME_UNITS ==> name[k] == if k < i then Widen(s[k]) else es[index - 1].name[k]
      {
        name := name[i := Widen(s[i])];
      }
      name := name[|s| := 0];
      assert name == SetName(es[index - 1].name, s);
      entries[index - 1] := entries[index - 1].(name := name);
      assert entries[..] == Renamed(es, index, s);
      ok := true;
    }

    method Copy() returns (dest: Gpt)
      requires Valid()
      ensures fresh(dest) && fresh(dest.entries) && dest.dev == dev && dest.Table() == Table()
    {
      dest := new Gpt(dev);
      dest.header := header;
      var es := entries[..];
      dest.entries := new Entry[|es|](i requires 0 <= i < |es| => es[i]);
      assert dest.entries[..] == es;
    }

    /** Fill in the checksums and write one copy where the header says. */
    method WriteToDisk(crc: Checksum, disk: Disk)
      requires Valid() && CopyFits(disk.Contents(), header, entries[..], dev)
      modifies this`header, disk`log, disk.data
      ensures disk.Contents() == WriteCopy(crc, old(disk.Contents()), old(header), old(entries[..]), dev)
    {
      hide EncodeHeader, EncodeEntries, Splice, HeaderSum;
      var bytes := EncodeEntries(entries[..]);
      header := header.(entriesCrc := crc(bytes));
      header := header.(crc32 := HeaderSum(crc, EncodeHeader(header), header.headerSize));
      disk.WriteAt(U64(header.currentLba * dev.lbaSize), EncodeHeader(header));
      disk.WriteAt(U64(header.entriesStart * dev.lbaSize), bytes);
    }

    /** Write both copies and the protective record; the table in memory stays as it is. */
    method Write(crc: Checksum, disk: Disk)
      requires Valid() && Writable(disk.Contents(), Table(), dev)
      modifies disk`log, disk.data
      ensures disk.Contents() == Written(crc, old(disk.Contents()), Table(), dev)
      ensures Table() == old(Table())
    {
      hide WriteCopy, ProtectiveMbr, EncodeEntries;
      ghost var t, d0 := Table(), disk.Contents();
      var le := Copy();
      le.header := le.header.(currentLba := 1);
      le.header := le.header.(backupLba := U64(dev.sectors - 1));
      le.header := le.header.(entriesStart := 2);
      le.WriteToDisk(crc, disk);
      le := Copy();
      le.header := le.header.(currentLba := U64(dev.sectors - 1));
      le.header := le.header.(backupLba := 1);
      le.header := le.header.(entriesStart :=
        U64(le.header.currentLba - Mul32(header.numEntries, header.entrySize) / dev.lbaSize));
      le.WriteToDisk(crc, disk);
      disk.WriteAt(MBR_OFFSET, ProtectiveMbr(dev));
    }

    /** Read one copy. On failure the header may hold what was found on the disk. */
    method ReadData(crc: Checksum, disk: Disk, primary: bool) returns (ok: bool)
      modifies this
      ensures ok <==> ReadCopy(crc, disk.Contents(), dev, primary).Ok?
      ensures ok ==> Table() == ReadCopy(crc, disk.Contents(), dev, primary).table && fresh(entries)
    {
      hide DecodeHeader, DecodeEntries, HeaderSum;
      var offset := U64((if primary then 1 else U64(dev.sectors - 1)) * dev.lbaSize);
      if offset + HEADER_BYTES > disk.data.Length {
        return false;
      }
      var raw := disk.ReadAt(offset, HEADER_BYTES);
      header := DecodeHeader(raw);
      if header.sig != EFI_PART || header.headerSize > HEADER_BYTES {
        return false;
      }
      if HeaderSum(crc, raw, header.headerSize) != header.crc32 {
        return false;
      }
      ok := ReadEntriesData(crc, disk);
    }

    method ReadEntriesData(crc: Checksum, disk: Disk) returns (ok: bool)
      modifies this
      ensures header == old(header)
      ensures ok <==> ReadEntries(crc, disk.Contents(), dev, header).Ok?
      ensures ok ==> Table() == ReadEntries(crc, disk.Contents(), dev, header).table && fresh(entries)
    {
      hide DecodeEntries;
      if header.entrySize < ENTRY_BYTES || header.numEntries * header.entrySize >= 0x1_0000_0000 {
        return false;
      }
      var size: nat := header.numEntries * header.entrySize;
      var start := U64(header.entriesStart * dev.lbaSize);
      if start + size > disk.data.Length {
        return false;
      }
      var bytes := disk.ReadAt(start, size);
      if crc(bytes) != header.entriesCrc {
        return false;
      }
      var es := DecodeEntries(bytes, header.numEntries, header.entrySize);
      entries := new Entry[|es|](i requires 0 <= i < |es| => es[i]);
      assert entries[..] == es;
      ok := true;
    }

    /** Read the table, from the backup where the primary copy is no good. */
    method Read(crc: Checksum, disk: Disk) returns (ok: bool)
      modifies this
      ensures ok <==> ReadGpt(crc, disk.Contents(), dev).Ok?
      ensures ok ==> Table() == ReadGpt(crc, disk.Contents(), dev).table && fresh(entries)
    {
      hide ReadCopy;
      if disk.data.Length <= MBR_TYPE_OFFSET {
        return false;
      }
      var tag := disk.ReadAt(MBR_TYPE_OFFSET, 1);
      if tag[0] != PROTECTIVE {
        return false;
      }
      ok := ReadData(crc, disk, true);
      if !ok {
        ok := ReadData(crc, disk, false);
      }
    }

    /** The first of the largest free runs; false exactly when no usable sector is free. */
    method FindContiguousFreeSpace() returns (found: bool, start: uint64, end: uint64)
      requires Valid()
      ensures Sweepable(Table()) ==> (found <==> exists lba :: Free(Table(), lba))
      ensures Sweepable(Table()) && found ==> FirstLongest(Table(), start, end)
    {
      hide Free, Regions, SortRegions, FirstLongest;
      var regions := CollectRegions();
      SortSorts(regions);
      var sorted := SortRegions(regions);
      if Sweepable(Table()) {
        RegionsApart(entries[..], header);
        ApartByMultiset(regions, sorted, header.firstUsable, header.lastUsable);
      }
      var largest := Sweep(sorted);
      if Sweepable(Table()) {
        BestIsFirstLongest(Table(), sorted, largest);
        LargestIsFree(Table(), largest);
      }
      found, start, end := largest.size != 0, largest.start, largest.end;
    }

    /** One pass over the regions in order, and the rest of the usable range behind the last. */
    method Sweep(regions: seq<PtnRegion>) returns (largest: Largest)
      ensures Apart(regions, header.firstUsable, header.lastUsable) && GptSpace.Sorted(regions)
              && header.firstUsable <= header.lastUsable + 1 && header.lastUsable < TWO_63 ==>
                Best(regions, header.firstUsable, header.lastUsable, header.lastUsable + 1, largest)
    {
      hide Best, Vacant;
      ghost var f, l := header.firstUsable, header.lastUsable;
      ghost var sane := Apart(regions, f, l) && GptSpace.Sorted(regions) && f <= l + 1 && l < TWO_63;
      BestAtStart(regions, f, l);
      var base := header.firstUsable;
      largest := Largest(0, 0, 0);
      for i := 0 to |regions|
        invariant sane ==> base == if i == 0 then f else regions[i - 1].end + 1
        invariant sane ==> Best(regions, f, l, base, largest)
      {
        if sane {
          SweepStep(regions, f, l, i, base, largest);
        }
        largest := Updated(largest, base, regions[i].start);
        base := U64(regions[i].end + 1);
      }
      if sane {
        GapIsVacant(regions, f, l, |regions|, base, l + 1);
        BestOverGap(regions, f, l, base, l + 1, largest);
      }
      largest := Updated(largest, base, U64(header.lastUsable + 1));
    }

    method CollectRegions() returns (regions: seq<PtnRegion>)
      requires Valid()
      ensures regions == Regions(entries[..])
    {
      regions := [];
      for i := 0 to header.numEntries
        invariant regions == Regions(entries[..i])
      {
        RegionsAppend(entries[..i], entries[i]);
        assert entries[..i + 1] == entries[..i] + [entries[i]];
        if entries[i].firstLba != 0 {
          regions := regions + [PtnRegion(entries[i].firstLba, entries[i].lastLba)];
        }
      }
      assert entries[..header.numEntries] == entries[..];
    }
  }

  function Renamed(es: seq<Entry>, index: nat, s: CString): (r: seq<Entry>)
    requires 1 <= index <= |es| && |s| <= NAME_MAX
    ensures |r| == |es|
  {
    es[index - 1 := es[index - 1].(name := SetName(es[index - 1].name, s))]
  }
}
