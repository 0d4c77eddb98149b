/** Finding and deleting an old installation, and shrinking the Windows partition. */
module PlanErase {
  import opened Arithmetic
  import opened Bytes
  import opened GptFormat
  import opened GptImage
  import opened GptTable
  import opened Planner
  import opened Units

  /** A partition of an old installation, by its name; the boot loader's is kept. */
  predicate IsAndroidName(name: string) {
    StartsWith(name, NAME_MAGIC) && !(|name| == 18 && name[8..] == BOOTLOADER)
  }

  predicate IsAndroid(e: Entry) {
    Live(e) && IsAndroidName(GetName(e.name))
  }

  /** The one name that the second test spares. */
  lemma OnlyBootloaderSpared(name: string)
    ensures IsAndroidName(name) <==> StartsWith(name, NAME_MAGIC) && name != NAME_MAGIC + BOOTLOADER
  {
    if StartsWith(name, NAME_MAGIC) && |name| == 18 && name[8..] == BOOTLOADER {
      assert name == name[..8] + name[8..];
    }
  }

  /** What one installation creates, the next one finds: every partition but the boot loader's; and the
      system partition, renamed, is spared. */
  lemma NextInstallationFinds(dev: Device, t: Table, p: Placed)
    requires dev.lbaSize > 0 && InPlace(dev, t, p)
    ensures IsAndroid(t.entries[p.index - 1]) <==> p.name != BOOTLOADER
    ensures IsCString(NAME_MAGIC + p.name)
  {
    var all := NAME_MAGIC + p.name;
    var got := AsciiOnly(all);
    OnlyBootloaderSpared(got);
    assert got[..8] == NAME_MAGIC;
    if got == NAME_MAGIC + BOOTLOADER {
      assert forall i :: 0 <= i < |all| ==> all[i] == got[i];
      assert all == got;
      assert p.name == all[8..] == BOOTLOADER;
    }
    assert p.name == BOOTLOADER ==> all == NAME_MAGIC + BOOTLOADER && AsciiOnly(all) == all;
  }

  /** Bytes of an entry. */
  function EntrySize(e: Entry, lbaSize: uint32): uint64 {
    U64(U64(U64(e.lastLba + 1) - e.firstLba) * lbaSize)
  }

  /** Bytes of the old installation. */
  function AndroidBytes(es: seq<Entry>, lbaSize: uint32): uint64 {
    if es == [] then 0
    else
      var before, e := AndroidBytes(es[..|es| - 1], lbaSize), es[|es| - 1];
      if IsAndroid(e) then U64(before + EntrySize(e, lbaSize)) else before
  }

  /** Bytes of all partitions. */
  function AllBytes(es: seq<Entry>, lbaSize: uint32): uint64 {
    if es == [] then 0
    else
      var before, e := AllBytes(es[..|es| - 1], lbaSize), es[|es| - 1];
      if Live(e) then U64(before + EntrySize(e, lbaSize)) else before
  }

  function WithoutAndroid(es: seq<Entry>): (r: seq<Entry>)
    ensures |r| == |es|
    ensures forall i :: 0 <= i < |es| ==> r[i] == if IsAndroid(es[i]) then NoEntry(es[i].pad) else es[i]
  {
    if es == [] then []
    else
      var e := es[|es| - 1];
      WithoutAndroid(es[..|es| - 1]) + [if IsAndroid(e) then NoEntry(e.pad) else e]
  }

  /** Deleting the installation frees exactly the bytes that were reported, in 64-bit arithmetic;
      afterwards none are reported. */
  lemma {:induction false} DeletingConserves(es: seq<Entry>, lbaSize: uint32)
    ensures AllBytes(es, lbaSize) == U64(AllBytes(WithoutAndroid(es), lbaSize) + AndroidBytes(es, lbaSize))
    ensures AndroidBytes(WithoutAndroid(es), lbaSize) == 0
  {
    hide EntrySize, IsAndroid, U64;
    if es != [] {
      var init, e := es[..|es| - 1], es[|es| - 1];
      var kept, freed := AllBytes(WithoutAndroid(init), lbaSize), AndroidBytes(init, lbaSize);
      assert WithoutAndroid(es)[..|es| - 1] == WithoutAndroid(init);
      DeletingConserves(init, lbaSize);
      AndroidIsLive(e);
      U64Sum(kept + freed, EntrySize(e, lbaSize));
      U64Sum(freed + EntrySize(e, lbaSize), kept);
      U64Sum(kept + EntrySize(e, lbaSize), freed);
      U64Sum(freed, 0);
    }
  }

  lemma AndroidIsLive(e: Entry)
    ensures IsAndroid(e) ==> Live(e) && !IsAndroid(NoEntry(e.pad)) && !Live(NoEntry(e.pad))
  {
  }

  lemma U64Sum(a: int, b: int)
    ensures U64(U64(a) + b) == U64(a + b)
  {
  }

  /** Deleting keeps the rest of the table in order. */
  lemma DeletingKeepsLayout(t: Table)
    requires WellLaid(t)
    ensures WellLaid(t.(entries := WithoutAndroid(t.entries)))
    ensures t.Consistent() ==> t.(entries := WithoutAndroid(t.entries)).Consistent()
  {
  }

  /** The Windows partition cut down to newSize bytes. */
  function Shrunk(es: seq<Entry>, index: nat, newSize: uint64, lbaSize: uint32): (r: seq<Entry>)
    requires 1 <= index <= |es| && lbaSize > 0
    ensures |r| == |es|
  {
    var e := es[index - 1];
    es[index - 1 := e.(lastLba := U64(U64(e.firstLba + ToUnitCeiling(newSize, lbaSize)) - 1))]
  }

  /** A new size that is not zero and not larger than the partition leaves a partition that starts
      where it did, ends no later, and still holds the new size. */
  lemma ShrinkingFits(t: Table, index: nat, newSize: uint64, lbaSize: uint32)
    requires 1 <= index <= |t.entries| && 0 < lbaSize
    requires WellLaid(t) && t.header.lastUsable < 0x8000_0000_0000_0000 && Live(t.entries[index - 1])
    requires var e := t.entries[index - 1];
      0 < newSize <= (e.lastLba + 1 - e.firstLba) * lbaSize && newSize < 0x8000_0000_0000_0000
    ensures var e, e' := t.entries[index - 1], Shrunk(t.entries, index, newSize, lbaSize)[index - 1];
      && e'.firstLba == e.firstLba <= e'.lastLba <= e.lastLba
      && newSize <= (e'.lastLba + 1 - e'.firstLba) * lbaSize < newSize + lbaSize
    ensures WellLaid(t.(entries := Shrunk(t.entries, index, newSize, lbaSize)))
  {
    var e := t.entries[index - 1];
    assert InRange(e, t.header);
    CeilingIsLeast(newSize, lbaSize);
    var n := ToUnitCeiling(newSize, lbaSize);
    assert n <= e.lastLba + 1 - e.firstLba;
    assert n >= 1 by {
      MulCancel(0, n, lbaSize);
    }
    ShorterKeepsLayout(t, index, e.firstLba + n - 1);
  }

  /** Shrinking changes the end of one entry. */
  lemma OnlyEndMoves(es: seq<Entry>, index: nat, newSize: uint64, lbaSize: uint32)
    requires 1 <= index <= |es| && lbaSize > 0
    ensures var r := Shrunk(es, index, newSize, lbaSize);
      && (forall k :: 0 <= k < |es| && k != index - 1 ==> r[k] == es[k])
      && r[index - 1] == es[index - 1].(lastLba := r[index - 1].lastLba)
  {
  }

  lemma ShorterKeepsLayout(t: Table, index: nat, last: uint64)
    requires 1 <= index <= |t.entries| && WellLaid(t)
    requires var e := t.entries[index - 1]; Live(e) && e.firstLba <= last <= e.lastLba
    ensures WellLaid(t.(entries := t.entries[index - 1 := t.entries[index - 1].(lastLba := last)]))
  {
    var t' := t.(entries := t.entries[index - 1 := t.entries[index - 1].(lastLba := last)]);
    forall i, j | 0 <= i < j < |t'.entries| && Live(t'.entries[i]) && Live(t'.entries[j])
      ensures !Overlap(t'.entries[i], t'.entries[j])
    {
      assert !Overlap(t.entries[i], t.entries[j]);
    }
  }
}
