/** What deleting an old installation is worth: the bytes reported are the sectors that become free. */
module PlanFreed {
  import opened Arithmetic
  import opened Bytes
  import opened GptFormat
  import opened GptImage
  import opened GptTable
  import opened PlanDual
  import opened PlanErase

  /** A table whose usable sectors are on the disk. */
  predicate OnDisk(dev: Device, t: Table) {
    dev.Valid() && WellLaid(t) && t.header.lastUsable < dev.sectors
  }

  /** An entry in use is as large as its sectors. */
  lemma EntrySizeIs(dev: Device, t: Table, i: nat)
    requires OnDisk(dev, t) && i < |t.entries| && Live(t.entries[i])
    ensures var e := t.entries[i]; EntrySize(e, dev.lbaSize) == (e.lastLba + 1 - e.firstLba) * dev.lbaSize
  {
    var e := t.entries[i];
    assert InRange(e, t.header);
    MulLe(1, dev.lbaSize, dev.sectors);
    MulLe(0, e.lastLba + 1 - e.firstLba, dev.lbaSize);
    MulLe(e.lastLba + 1 - e.firstLba, dev.sectors, dev.lbaSize);
  }

  /** Free sectors among the first n of the disk. */
  function FreeBelow(t: Table, n: nat): (r: nat)
    ensures r <= n
  {
    if n == 0 then 0 else FreeBelow(t, n - 1) + if Free(t, n - 1) then 1 else 0
  }

  function FreeSectors(t: Table): nat {
    FreeBelow(t, t.header.lastUsable + 1)
  }

  /** Sectors of a to b among the first n. */
  function Among(n: nat, a: nat, b: nat): int
    requires a <= b
  {
    if n <= a then 0 else if n <= b then n - a else b + 1 - a
  }

  lemma {:induction false} FreedBelow(t: Table, t': Table, a: nat, b: nat, n: nat)
    requires a <= b
    requires forall lba :: Free(t', lba) <==> Free(t, lba) || a <= lba <= b
    requires forall lba :: a <= lba <= b ==> !Free(t, lba)
    ensures FreeBelow(t', n) == FreeBelow(t, n) + Among(n, a, b)
  {
    hide Free;
    if n > 0 {
      FreedBelow(t, t', a, b, n - 1);
      assert Free(t', n - 1) <==> Free(t, n - 1) || a <= n - 1 <= b;
    }
  }

  /** Clearing an entry in use frees its sectors and no others. */
  lemma ClearingFrees(t: Table, i: nat)
    requires WellLaid(t) && i < |t.entries| && Live(t.entries[i])
    ensures var e, t' := t.entries[i], t.(entries := t.entries[i := NoEntry(t.entries[i].pad)]);
      && WellLaid(t') && e.firstLba <= e.lastLba
      && FreeSectors(t') == FreeSectors(t) + (e.lastLba + 1 - e.firstLba)
  {
    var e, t' := t.entries[i], t.(entries := t.entries[i := NoEntry(t.entries[i].pad)]);
    assert InRange(e, t.header);
    forall lba ensures Free(t', lba) <==> Free(t, lba) || e.firstLba <= lba <= e.lastLba {
      ClearedSector(t, i, lba);
    }
    forall lba | e.firstLba <= lba <= e.lastLba ensures !Free(t, lba) {
      assert Covered(t.entries, lba);
    }
    hide Free, WellLaid;
    FreedBelow(t, t', e.firstLba, e.lastLba, t.header.lastUsable + 1);
  }

  lemma ClearedSector(t: Table, i: nat, lba: int)
    requires WellLaid(t) && i < |t.entries| && Live(t.entries[i])
    ensures var e, t' := t.entries[i], t.(entries := t.entries[i := NoEntry(t.entries[i].pad)]);
      Free(t', lba) <==> Free(t, lba) || e.firstLba <= lba <= e.lastLba
  {
    var e, t' := t.entries[i], t.(entries := t.entries[i := NoEntry(t.entries[i].pad)]);
    assert forall k :: 0 <= k < |t.entries| && k != i ==> t'.entries[k] == t.entries[k];
    if Covered(t'.entries, lba) {
      var k :| 0 <= k < |t'.entries| && Live(t'.entries[k]) && t'.entries[k].firstLba <= lba <= t'.entries[k].lastLba;
      assert k != i;
      assert if k < i then !Overlap(t.entries[k], e) else !Overlap(e, t.entries[k]);
    }
  }

  /** The table with the old installation deleted from the first k entries. */
  function DeletedBelow(t: Table, k: nat): (r: Table)
    requires k <= |t.entries|
    ensures |r.entries| == |t.entries| && r.header == t.header
  {
    t.(entries := WithoutAndroid(t.entries[..k]) + t.entries[k..])
  }

  lemma DeletesNext(t: Table, k: nat)
    requires k < |t.entries|
    ensures var e := t.entries[k];
      && DeletedBelow(t, k).entries[k] == e
      && DeletedBelow(t, k + 1).entries
         == if IsAndroid(e) then DeletedBelow(t, k).entries[k := NoEntry(e.pad)] else DeletedBelow(t, k).entries
  {
    hide IsAndroid;
    assert t.entries[..k + 1][..k] == t.entries[..k];
  }

  /** Deleting below k leaves a table in order, and what it has made free are the bytes reported. */
  predicate FreedSoFar(dev: Device, t: Table, k: nat)
    requires k <= |t.entries|
  {
    && WellLaid(DeletedBelow(t, k)) && FreeSectors(t) <= FreeSectors(DeletedBelow(t, k))
    && (FreeSectors(DeletedBelow(t, k)) - FreeSectors(t)) * dev.lbaSize == AndroidBytes(t.entries[..k], dev.lbaSize)
  }

  lemma {:induction false} FreedBy(dev: Device, t: Table, k: nat)
    requires OnDisk(dev, t) && k <= |t.entries|
    ensures FreedSoFar(dev, t, k)
  {
    hide WellLaid, FreedSoFar;
    if k == 0 {
      NothingDeleted(dev, t);
    } else {
      FreedBy(dev, t, k - 1);
      DeletesNext(t, k - 1);
      if IsAndroid(t.entries[k - 1]) {
        OneMoreFreed(dev, t, k - 1);
      } else {
        OneMoreKept(dev, t, k - 1);
      }
    }
  }

  lemma OneMoreKept(dev: Device, t: Table, k: nat)
    requires k < |t.entries| && FreedSoFar(dev, t, k) && !IsAndroid(t.entries[k])
    ensures FreedSoFar(dev, t, k + 1)
  {
    hide WellLaid, IsAndroid, FreeSectors, EntrySize;
    DeletesNext(t, k);
    hide DeletedBelow;
    assert DeletedBelow(t, k + 1) == DeletedBelow(t, k);
    assert t.entries[..k + 1][..k] == t.entries[..k];
  }

  lemma OneMoreFreed(dev: Device, t: Table, k: nat)
    requires OnDisk(dev, t) && k < |t.entries| && FreedSoFar(dev, t, k) && IsAndroid(t.entries[k])
    ensures FreedSoFar(dev, t, k + 1)
  {
    hide WellLaid, FreeSectors, EntrySize;
    DeletesNext(t, k);
    hide DeletedBelow;
    var before, after, e := DeletedBelow(t, k), DeletedBelow(t, k + 1), t.entries[k];
    assert Live(e);
    hide IsAndroid;
    EntrySizeIs(dev, before, k);
    ClearingFrees(before, k);
    assert after == before.(entries := before.entries[k := NoEntry(e.pad)]);
    assert t.entries[..k + 1][..k] == t.entries[..k];
    FreedFits(dev, t, before, after, e);
  }

  lemma NothingDeleted(dev: Device, t: Table)
    requires WellLaid(t)
    ensures FreedSoFar(dev, t, 0)
  {
    hide WellLaid;
    assert t.entries[..0] == [] && t.entries[0..] == t.entries;
    assert DeletedBelow(t, 0) == t;
  }

  lemma FreedFits(dev: Device, t: Table, before: Table, after: Table, e: Entry)
    requires OnDisk(dev, t) && after.header == t.header && FreeSectors(t) <= FreeSectors(before)
    requires FreeSectors(after) == FreeSectors(before) + (e.lastLba + 1 - e.firstLba) && e.lastLba >= e.firstLba
    ensures (FreeSectors(after) - FreeSectors(t)) * dev.lbaSize
            == (FreeSectors(before) - FreeSectors(t)) * dev.lbaSize + (e.lastLba + 1 - e.firstLba) * dev.lbaSize
            < 0x8000_0000_0000_0000
    ensures (FreeSectors(after) - FreeSectors(t)) * dev.lbaSize >= 0
  {
    hide FreeSectors, WellLaid;
    var x, y, b := FreeSectors(before) - FreeSectors(t), e.lastLba + 1 - e.firstLba, dev.lbaSize;
    assert FreeSectors(after) <= t.header.lastUsable + 1 by {
      FreeIsBounded(after);
    }
    MulBounds(x + y, b, dev.sectors, b);
    assert (x + y) * b == x * b + y * b;
  }

  lemma FreeIsBounded(t: Table)
    ensures FreeSectors(t) <= t.header.lastUsable + 1
  {
  }

  /** The bytes reported for an old installation are those of the sectors that deleting it makes free. */
  lemma DeletingFrees(dev: Device, t: Table)
    requires OnDisk(dev, t)
    ensures var t' := t.(entries := WithoutAndroid(t.entries));
      && WellLaid(t')
      && (FreeSectors(t') - FreeSectors(t)) * dev.lbaSize == AndroidBytes(t.entries, dev.lbaSize)
  {
    hide WellLaid, FreeSectors, AndroidBytes;
    var n := |t.entries|;
    assert t.entries[..n] == t.entries && t.entries[n..] == [];
    FreedBy(dev, t, n);
    assert DeletedBelow(t, n).entries == WithoutAndroid(t.entries);
  }

  /** Ending an entry earlier frees the sectors behind its new end and no others. */
  lemma ShorteningFrees(t: Table, i: nat, last: uint64)
    requires WellLaid(t) && i < |t.entries| && Live(t.entries[i]) && t.entries[i].firstLba <= last <= t.entries[i].lastLba
    ensures var e, t' := t.entries[i], t.(entries := t.entries[i := t.entries[i].(lastLba := last)]);
      FreeSectors(t') == FreeSectors(t) + (e.lastLba - last)
  {
    var e, t' := t.entries[i], t.(entries := t.entries[i := t.entries[i].(lastLba := last)]);
    assert InRange(e, t.header);
    if last == e.lastLba {
      assert t.entries[i := e.(lastLba := last)] == t.entries;
    } else {
      forall lba ensures Free(t', lba) <==> Free(t, lba) || last + 1 <= lba <= e.lastLba {
        ShortenedSector(t, i, last, lba);
      }
      forall lba | last + 1 <= lba <= e.lastLba ensures !Free(t, lba) {
        assert Covered(t.entries, lba);
      }
      hide Free, WellLaid;
      FreedBelow(t, t', last + 1, e.lastLba, t.header.lastUsable + 1);
    }
  }

  lemma ShortenedSector(t: Table, i: nat, last: uint64, lba: int)
    requires WellLaid(t) && i < |t.entries| && Live(t.entries[i]) && t.entries[i].firstLba <= last < t.entries[i].lastLba
    ensures var e, t' := t.entries[i], t.(entries := t.entries[i := t.entries[i].(lastLba := last)]);
      Free(t', lba) <==> Free(t, lba) || last + 1 <= lba <= e.lastLba
  {
    var e, t' := t.entries[i], t.(entries := t.entries[i := t.entries[i].(lastLba := last)]);
    assert forall k :: 0 <= k < |t.entries| && k != i ==> t'.entries[k] == t.entries[k];
    assert t'.entries[i].firstLba == e.firstLba && t'.entries[i].lastLba == last;
    if last < lba <= e.lastLba {
      forall k | 0 <= k < |t'.entries| && Live(t'.entries[k]) && k != i
        ensures !(t'.entries[k].firstLba <= lba <= t'.entries[k].lastLba)
      {
        assert if k < i then !Overlap(t.entries[k], e) else !Overlap(e, t.entries[k]);
      }
    }
  }

  /** The bytes reported depend on the old installation's entries only. */
  lemma {:induction false} SameReport(es: seq<Entry>, es': seq<Entry>, lbaSize: uint32)
    requires |es'| == |es| && forall i :: 0 <= i < |es| ==> es'[i] == es[i] || (!IsAndroid(es[i]) && !IsAndroid(es'[i]))
    ensures AndroidBytes(es', lbaSize) == AndroidBytes(es, lbaSize)
  {
    hide IsAndroid, EntrySize;
    if es != [] {
      SameReport(es[..|es| - 1], es'[..|es| - 1], lbaSize);
    }
  }

  /** Windows gives up the sectors behind its new end, and the report on an old installation stays. */
  lemma ShrinkingFrees(dev: Device, t: Table, d: DualOpts)
    requires OnDisk(dev, t) && t.header.lastUsable < 0x8000_0000_0000_0000 && GoodShrink(t, dev, d) && d.winResize != 0
    ensures var es := Shrunk(t.entries, d.winIndex, d.winResize, dev.lbaSize);
      && OnDisk(dev, t.(entries := es))
      && FreeSectors(t.(entries := es)) == FreeSectors(t) + (t.entries[d.winIndex - 1].lastLba - es[d.winIndex - 1].lastLba)
      && AndroidBytes(es, dev.lbaSize) == AndroidBytes(t.entries, dev.lbaSize) && !IsAndroid(es[d.winIndex - 1])
  {
    hide WellLaid, FreeSectors, EntrySize, Shrunk, IsAndroidName;
    var b, i := dev.lbaSize, d.winIndex - 1;
    ShrinkingFits(t, d.winIndex, d.winResize, b);
    OnlyEndMoves(t.entries, d.winIndex, d.winResize, b);
    var es := Shrunk(t.entries, d.winIndex, d.winResize, b);
    ShorteningFrees(t, i, es[i].lastLba);
    assert es == t.entries[i := t.entries[i].(lastLba := es[i].lastLba)];
    SameReport(t.entries, es, b);
  }

  /** The sectors that a dual-boot installation makes free before it looks for a gap: those reported for
      an old installation, if there is one to delete, and what Windows gives up. */
  lemma ClearingConserves(dev: Device, t: Table, d: DualOpts)
    requires OnDisk(dev, t) && t.header.lastUsable < 0x8000_0000_0000_0000 && GoodShrink(t, dev, d)
    ensures Cleared(t, dev, d).Some? && |Cleared(t, dev, d).value.entries| == |t.entries|
    ensures var t1 := Cleared(t, dev, d).value;
      (FreeSectors(t1) - FreeSectors(t)) * dev.lbaSize
      == (if d.androidSize != 0 then AndroidBytes(t.entries, dev.lbaSize) else 0)
         + (if d.winResize != 0 then (t.entries[d.winIndex - 1].lastLba - t1.entries[d.winIndex - 1].lastLba) * dev.lbaSize else 0)
  {
    hide WellLaid, FreeSectors, Shrunk, IsAndroid, AndroidBytes;
    var b := dev.lbaSize;
    var t0 := t;
    if d.winResize != 0 {
      ShrinkingFrees(dev, t, d);
      t0 := t.(entries := Shrunk(t.entries, d.winIndex, d.winResize, b));
    }
    hide GoodShrink;
    if d.androidSize != 0 {
      DeletingFrees(dev, t0);
    }
    Together(FreeSectors(Cleared(t, dev, d).value), FreeSectors(t0), FreeSectors(t), b);
  }

  /** And none of it is left. */
  lemma ClearedIsClean(dev: Device, t: Table, d: DualOpts)
    requires dev.lbaSize > 0 && Cleared(t, dev, d).Some? && d.androidSize != 0
    ensures var t1 := Cleared(t, dev, d).value; forall i :: 0 <= i < |t1.entries| ==> !IsAndroid(t1.entries[i])
  {
    hide IsAndroidName, Shrunk;
  }

  lemma Together(a: int, b: int, c: int, k: int)
    ensures (a - c) * k == (a - b) * k + (b - c) * k
  {
  }
}
