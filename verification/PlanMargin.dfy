/** The interactive check keeps two MiB back; that is enough for what the fresh table takes. */
module PlanMargin {
  import opened Arithmetic
  import opened Bytes
  import opened GptFormat
  import opened GptFresh
  import opened GptImage
  import opened GptSpace
  import opened GptTable
  import opened Planner
  import opened PlanTiles
  import opened Units

  /** All usable sectors of a fresh table are one free run. */
  lemma FreshIsFree(dev: Device, guid: Guid)
    requires Suitable(dev)
    ensures var t := NewTable(dev, guid);
      && WellLaid(t) && Sweepable(t)
      && FirstLongest(t, t.header.firstUsable, t.header.lastUsable)
  {
    var t := NewTable(dev, guid);
    UsableRange(dev, guid);
    SectorsBelow(dev);
    assert forall lba :: t.header.firstUsable <= lba <= t.header.lastUsable ==> Free(t, lba);
    forall a, b | FreeRun(t, a, b) ensures t.header.firstUsable <= a && b <= t.header.lastUsable {
      assert Free(t, a) && Free(t, b);
    }
  }

  lemma SectorsBelow(dev: Device)
    requires dev.Valid()
    ensures dev.sectors < TWO_63
  {
    MulLe(1, dev.lbaSize, dev.sectors);
  }

  /** The check that partitioner_cli makes before wiping a disk. */
  predicate CliAccepts(dev: Device, neededMb: nat) {
    dev.Size() - 2 * MIB >= (neededMb + MIN_DATA_MB) * MIB
  }

  /** A disk that passes the interactive check passes the later one, on the table the program makes
      for it: whatever gap the search returns, its whole MiB are enough. */
  lemma MarginSuffices(dev: Device, guid: Guid, neededMb: nat, s: uint64, e: uint64)
    requires dev.Valid() && NEW_SPAN % dev.lbaSize == 0 && CliAccepts(dev, neededMb)
    requires FirstLongest(NewTable(dev, guid), s, e)
    ensures var g := GapOf(dev, s, e);
      && GoodGap(dev, NewTable(dev, guid), s, e) && g.startMb <= g.endMb
      && g.endMb - g.startMb >= neededMb + MIN_DATA_MB
  {
    var t := NewTable(dev, guid);
    DividesMib(dev.lbaSize);
    assert Suitable(dev);
    FreshIsFree(dev, guid);
    FirstLongestUnique(t, s, e, t.header.firstUsable, t.header.lastUsable);
    UsableRange(dev, guid);
    SectorsBelow(dev);
    GapInside(dev, t, s, e);
    assert ToMib(U64(s * dev.lbaSize)) == 1;
    assert U64(U64(e + 1) * dev.lbaSize) == dev.Size() - dev.lbaSize - NEW_SPAN;
  }

  /** Bytes in front of the backup of a fresh table. */
  function UsableEnd(dev: Device): int {
    dev.Size() - dev.lbaSize - NEW_SPAN
  }

  /** The gap of a fresh table in whole MiB. It ends before it starts exactly if the usable sectors
      end in the first MiB. */
  lemma WipedGapIs(dev: Device, guid: Guid, s: uint64, e: uint64)
    requires Suitable(dev) && FirstLongest(NewTable(dev, guid), s, e)
    ensures UsableEnd(dev) >= 0 && GapOf(dev, s, e) == Gap(1, UsableEnd(dev) / MIB)
    ensures GapOf(dev, s, e).startMb <= GapOf(dev, s, e).endMb <==> UsableEnd(dev) >= MIB
  {
    var t := NewTable(dev, guid);
    DividesMib(dev.lbaSize);
    FreshIsFree(dev, guid);
    FirstLongestUnique(t, s, e, t.header.firstUsable, t.header.lastUsable);
    UsableRange(dev, guid);
    SectorsBelow(dev);
    hide NewTable, FirstLongest;
    assert ToMib(U64(s * dev.lbaSize)) == 1;
    assert U64(U64(e + 1) * dev.lbaSize) == UsableEnd(dev);
  }

  /** Bytes of the gap, as the interactive check takes them. */
  function GapBytesOf(dev: Device, s: uint64, e: uint64): int {
    (e + 1 - s) * dev.lbaSize
  }

  /** The check that partitioner_cli makes before a dual boot that leaves Windows as it is: nothing is
      kept back for cutting the gap to whole MiB. */
  predicate CliAcceptsDual(dev: Device, s: uint64, e: uint64, neededMb: nat) {
    GapBytesOf(dev, s, e) >= (neededMb + MIN_DATA_MB) * MIB
  }

  /** What it would have to keep back is exactly the way from the gap's start to the next MiB. */
  lemma DualCheckExactly(dev: Device, t: Table, s: uint64, e: uint64, wholeMb: nat)
    requires GoodGap(dev, t, s, e)
    ensures var g := GapOf(dev, s, e);
      g.endMb - g.startMb >= wholeMb <==> GapBytesOf(dev, s, e) >= wholeMb * MIB + (g.startMb * MIB - s * dev.lbaSize)
  {
    hide GoodGap, GapOf;
    GapInside(dev, t, s, e);
    GapEdges(dev, t, s, e);
    assert (e + 1 - s) * dev.lbaSize == (e + 1) * dev.lbaSize - s * dev.lbaSize;
  }

  /** For every need there is a disk whose gap passes the check and holds a MiB less. */
  lemma DualCheckCanErr(neededMb: nat, guid: Guid)
    requires neededMb < 0x100_0000_0000
    ensures var n := neededMb + MIN_DATA_MB;
      var dev, e := Device(512, 2048 * n + 67), 2048 * n + 33;
      && Suitable(dev) && FirstLongest(NewTable(dev, guid), 34, e) && CliAcceptsDual(dev, 34, e, neededMb)
      && GapOf(dev, 34, e).endMb - GapOf(dev, 34, e).startMb == n - 1
  {
    hide NewTable, FirstLongest;
    var n := neededMb + MIN_DATA_MB;
    var dev, e := Device(512, 2048 * n + 67), 2048 * n + 33;
    assert dev.Size() == n * MIB + 67 * 512;
    FreshIsFree(dev, guid);
    UsableRange(dev, guid);
    WipedGapIs(dev, guid, 34, e);
    DivModUnique(UsableEnd(dev), MIB, n, 34 * 512);
  }

  lemma DividesMib(b: uint32)
    requires 512 <= b && NEW_SPAN % b == 0
    ensures MIB % b == 0 && b <= NEW_SPAN
  {
    var q := NEW_SPAN / b;
    assert NEW_SPAN == b * q;
    assert MIB == b * (q * 64);
    DivModUnique(MIB, b, q * 64, 0);
    if b > NEW_SPAN {
      MulLe(1, q, b);
    }
  }
}
