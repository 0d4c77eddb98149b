/** Finding the largest free gap: the regions in use, their order, and why one sweep over the
    sorted regions finds the first of the longest free runs. */
module GptSpace {
  import opened Bytes
  import opened GptFormat
  import opened GptImage
  import opened GptTable

  const TWO_63: int := 0x8000_0000_0000_0000

  datatype PtnRegion = PtnRegion(start: uint64, end: uint64)

  /** A 64-bit difference read as a signed number. */
  function Signed(x: uint64): int {
    if x < TWO_63 then x else x - 2 * TWO_63
  }

  /** The comparison by which the regions are sorted. */
  function RegionCmp(a: PtnRegion, b: PtnRegion): int {
    var d := Signed(U64(a.start - b.start));
    if d < 0 then -1 else if d > 0 then 1 else 0
  }

  /** The comparison is right exactly while the starts are less than 2^63 apart (or 2^63 below). */
  lemma RegionCmpRight(a: PtnRegion, b: PtnRegion)
    ensures -TWO_63 <= a.start - b.start < TWO_63 <==>
            RegionCmp(a, b) == if a.start < b.start then -1 else if a.start > b.start then 1 else 0
  {
    assert U64(a.start - b.start) == if a.start >= b.start then a.start - b.start else a.start - b.start + 2 * TWO_63;
  }

  /** Beyond that it is no order at all: three regions, each before the next, around a circle. */
  lemma RegionCmpCanCycle()
    ensures var a, b, c := PtnRegion(1, 1), PtnRegion(0x6000_0000_0000_0000, 0x6000_0000_0000_0000),
                           PtnRegion(0xc000_0000_0000_0000, 0xc000_0000_0000_0000);
      RegionCmp(a, b) < 0 && RegionCmp(b, c) < 0 && RegionCmp(c, a) < 0
  {
  }

  /** The ranges of the entries in use. */
  function Regions(es: seq<Entry>): seq<PtnRegion> {
    if es == [] then []
    else if Live(es[0]) then [PtnRegion(es[0].firstLba, es[0].lastLba)] + Regions(es[1..])
    else Regions(es[1..])
  }

  predicate InRegion(regs: seq<PtnRegion>, lba: int) {
    exists j :: 0 <= j < |regs| && regs[j].start <= lba <= regs[j].end
  }

  lemma {:induction false} RegionFromEntry(es: seq<Entry>, j: nat) returns (i: nat)
    requires j < |Regions(es)|
    ensures i < |es| && Live(es[i]) && Regions(es)[j] == PtnRegion(es[i].firstLba, es[i].lastLba)
  {
    if Live(es[0]) {
      if j == 0 {
        i := 0;
      } else {
        i := RegionFromEntry(es[1..], j - 1);
        i := i + 1;
      }
    } else {
      i := RegionFromEntry(es[1..], j);
      i := i + 1;
    }
  }

  lemma {:induction false} EntryToRegion(es: seq<Entry>, i: nat) returns (j: nat)
    requires i < |es| && Live(es[i])
    ensures j < |Regions(es)| && Regions(es)[j] == PtnRegion(es[i].firstLba, es[i].lastLba)
  {
    if i == 0 {
      j := 0;
    } else {
      j := EntryToRegion(es[1..], i - 1);
      j := if Live(es[0]) then j + 1 else j;
    }
  }

  lemma RegionsCover(es: seq<Entry>, lba: int)
    ensures InRegion(Regions(es), lba) <==> Covered(es, lba)
  {
    if InRegion(Regions(es), lba) {
      var j :| 0 <= j < |Regions(es)| && Regions(es)[j].start <= lba <= Regions(es)[j].end;
      var i := RegionFromEntry(es, j);
    }
    if Covered(es, lba) {
      var i :| 0 <= i < |es| && Live(es[i]) && es[i].firstLba <= lba <= es[i].lastLba;
      var j := EntryToRegion(es, i);
    }
  }

  /** Each region lies in [f, l], and no two meet. */
  predicate Apart(regs: seq<PtnRegion>, f: int, l: int) {
    && (forall i :: 0 <= i < |regs| ==> f <= regs[i].start <= regs[i].end <= l)
    && (forall i, j :: 0 <= i < j < |regs| ==> regs[i].end < regs[j].start || regs[j].end < regs[i].start)
  }

  lemma {:induction false} RegionsApart(es: seq<Entry>, h: Header)
    requires WellLaid(Table(h, es))
    ensures Apart(Regions(es), h.firstUsable, h.lastUsable)
  {
    if es != [] {
      var rest := es[1..];
      assert forall i :: 0 <= i < |rest| ==> rest[i] == es[i + 1];
      assert WellLaid(Table(h, rest));
      RegionsApart(rest, h);
      if Live(es[0]) {
        forall j | 0 <= j < |Regions(rest)|
          ensures Regions(rest)[j].end < es[0].firstLba || es[0].lastLba < Regions(rest)[j].start
        {
          var i := RegionFromEntry(rest, j);
          assert !Overlap(es[0], es[i + 1]);
        }
      }
    }
  }

  /** Reordering keeps regions apart. */
  lemma ApartByMultiset(a: seq<PtnRegion>, b: seq<PtnRegion>, f: int, l: int)
    requires Apart(a, f, l) && multiset(a) == multiset(b)
    ensures Apart(b, f, l)
  {
    forall i | 0 <= i < |b| ensures f <= b[i].start <= b[i].end <= l {
      assert b[i] in multiset(a);
    }
    forall i, j | 0 <= i < j < |b| ensures b[i].end < b[j].start || b[j].end < b[i].start {
      assert b[i] in multiset(a) && b[j] in multiset(a);
      if b[i] == b[j] {
        TwoPlaces(b, i, j);
        ApartDistinct(a, f, l, b[i]);
      }
    }
  }

  lemma TwoPlaces(b: seq<PtnRegion>, i: nat, j: nat)
    requires i < j < |b| && b[i] == b[j]
    ensures multiset(b)[b[i]] >= 2
  {
    assert b == b[..i] + [b[i]] + b[i + 1..j] + [b[j]] + b[j + 1..];
  }

  lemma {:induction false} ApartDistinct(a: seq<PtnRegion>, f: int, l: int, x: PtnRegion)
    requires Apart(a, f, l)
    ensures multiset(a)[x] <= 1
  {
    if a != [] {
      assert a == [a[0]] + a[1..];
      ApartDistinct(a[1..], f, l, x);
      assert a[0] !in a[1..];
    }
  }

  lemma InRegionByMultiset(a: seq<PtnRegion>, b: seq<PtnRegion>, lba: int)
    requires multiset(a) == multiset(b) && InRegion(a, lba)
    ensures InRegion(b, lba)
  {
    var j :| 0 <= j < |a| && a[j].start <= lba <= a[j].end;
    assert a[j] in multiset(b);
  }

  /** The library's sort, by the program's comparison. By SortedIsUnique any method of sorting gives
      the same result on regions that are apart. */
  function SortRegions(regs: seq<PtnRegion>): seq<PtnRegion> {
    if regs == [] then [] else InsertRegion(regs[0], SortRegions(regs[1..]))
  }

  function InsertRegion(r: PtnRegion, regs: seq<PtnRegion>): seq<PtnRegion> {
    if regs == [] || RegionCmp(r, regs[0]) <= 0 then [r] + regs else [regs[0]] + InsertRegion(r, regs[1..])
  }

  /** Starts below 2^63. */
  predicate Low(regs: seq<PtnRegion>) {
    forall i :: 0 <= i < |regs| ==> regs[i].start < TWO_63
  }

  lemma {:induction false} InsertKeeps(r: PtnRegion, regs: seq<PtnRegion>)
    ensures multiset(InsertRegion(r, regs)) == multiset{r} + multiset(regs)
  {
    hide RegionCmp;
    if regs != [] {
      assert regs == [regs[0]] + regs[1..];
      InsertKeeps(r, regs[1..]);
    }
  }

  lemma {:induction false} InsertSorts(r: PtnRegion, regs: seq<PtnRegion>)
    requires Low(regs) && r.start < TWO_63 && Sorted(regs)
    ensures Sorted(InsertRegion(r, regs))
  {
    hide RegionCmp;
    if regs != [] {
      RegionCmpRight(r, regs[0]);
      InsertSorts(r, regs[1..]);
      InsertKeeps(r, regs[1..]);
      OnlyFrom(InsertRegion(r, regs[1..]), multiset{r} + multiset(regs[1..]));
    }
  }

  lemma OnlyFrom(s: seq<PtnRegion>, m: multiset<PtnRegion>)
    requires multiset(s) == m
    ensures forall i :: 0 <= i < |s| ==> s[i] in m
  {
    forall i | 0 <= i < |s| ensures s[i] in m {
      assert s[i] in multiset(s);
    }
  }

  lemma {:induction false} SortSorts(regs: seq<PtnRegion>)
    ensures multiset(SortRegions(regs)) == multiset(regs)
    ensures Low(regs) ==> Sorted(SortRegions(regs))
  {
    hide InsertRegion, RegionCmp, Sorted;
    if regs != [] {
      SortSorts(regs[1..]);
      var rest := SortRegions(regs[1..]);
      InsertKeeps(regs[0], rest);
      assert regs == [regs[0]] + regs[1..];
      if Low(regs) {
        OnlyFrom(rest, multiset(regs[1..]));
        InsertSorts(regs[0], rest);
      }
    } else {
      SortedNothing();
    }
  }

  lemma SortedNothing()
    ensures Sorted([])
  {
  }

  predicate Sorted(regs: seq<PtnRegion>) {
    forall i, j :: 0 <= i < j < |regs| ==> regs[i].start <= regs[j].start
  }

  /** Regions that are apart have one sorted order. */
  lemma {:induction false} SortedIsUnique(a: seq<PtnRegion>, b: seq<PtnRegion>, f: int, l: int)
    requires Apart(a, f, l) && Sorted(a) && Sorted(b) && multiset(a) == multiset(b)
    ensures a == b
  {
    hide Apart, Sorted;
    assert |a| == |multiset(a)| == |multiset(b)| == |b|;
    if a != [] {
      SameFirst(a, b, f, l);
      Tail(a, f, l);
      Tail(b, f, l);
      TailBag(a);
      TailBag(b);
      SortedIsUnique(a[1..], b[1..], f, l);
    }
  }

  lemma SameFirst(a: seq<PtnRegion>, b: seq<PtnRegion>, f: int, l: int)
    requires Apart(a, f, l) && Sorted(a) && Sorted(b) && multiset(a) == multiset(b) && a != [] && b != []
    ensures a[0] == b[0]
  {
    assert a[0] in multiset(b) && b[0] in multiset(a);
    var i :| 0 <= i < |a| && a[i] == b[0];
    var j :| 0 <= j < |b| && b[j] == a[0];
    assert a[0].start <= a[i].start && b[0].start <= b[j].start;
  }

  lemma TailBag(a: seq<PtnRegion>)
    requires a != []
    ensures multiset(a[1..]) == multiset(a) - multiset{a[0]}
  {
    assert a == [a[0]] + a[1..];
  }

  lemma Tail(a: seq<PtnRegion>, f: int, l: int)
    requires a != []
    ensures Sorted(a) ==> Sorted(a[1..])
    ensures Apart(a, f, l) ==> Apart(a[1..], f, l)
  {
    assert forall i :: 0 <= i < |a[1..]| ==> a[1..][i] == a[i + 1];
  }

  /** Sectors of [f, l] outside all regions. */
  predicate Vacant(regs: seq<PtnRegion>, f: int, l: int, lba: int) {
    f <= lba <= l && !InRegion(regs, lba)
  }

  predicate VacantRun(regs: seq<PtnRegion>, f: int, l: int, a: int, b: int) {
    a <= b && forall lba :: a <= lba <= b ==> Vacant(regs, f, l, lba)
  }

  /** The best gap seen so far. */
  datatype Largest = Largest(start: uint64, end: uint64, size: uint64)

  /** Take the gap [base, start) if it is longer. */
  function Updated(lg: Largest, base: uint64, start: uint64): Largest {
    if start > base && start - base > lg.size then Largest(base, start - 1, start - base) else lg
  }

  /** lg is the first of the longest vacant runs that end before `bound`. */
  ghost predicate Best(regs: seq<PtnRegion>, f: int, l: int, bound: int, lg: Largest) {
    && (lg.size == 0 ==> forall lba :: lba < bound ==> !Vacant(regs, f, l, lba))
    && (lg.size > 0 ==> lg.end < bound && lg.end == lg.start + lg.size - 1 && VacantRun(regs, f, l, lg.start, lg.end))
    && (forall a, b :: VacantRun(regs, f, l, a, b) && b < bound ==>
          b - a + 1 <= lg.size && (b - a + 1 == lg.size ==> lg.start <= a))
  }

  lemma BestAtStart(regs: seq<PtnRegion>, f: int, l: int)
    ensures Best(regs, f, l, f, Largest(0, 0, 0))
  {
    forall a, b | VacantRun(regs, f, l, a, b) ensures f <= b {
      assert Vacant(regs, f, l, b);
    }
  }

  /** Over a gap. */
  lemma BestOverGap(regs: seq<PtnRegion>, f: int, l: int, base: uint64, start: uint64, lg: Largest)
    requires Best(regs, f, l, base, lg) && base <= start && f <= base
    requires forall lba :: base <= lba < start ==> Vacant(regs, f, l, lba)
    requires base == f || !Vacant(regs, f, l, base - 1)
    ensures Best(regs, f, l, start, Updated(lg, base, start))
  {
    var lg' := Updated(lg, base, start);
    forall a, b | VacantRun(regs, f, l, a, b) && b < start
      ensures b - a + 1 <= lg'.size && (b - a + 1 == lg'.size ==> lg'.start <= a)
    {
      assert Vacant(regs, f, l, a);
      assert a <= base - 1 <= b ==> Vacant(regs, f, l, base - 1);
    }
  }

  /** Over a region. */
  lemma BestOverRegion(regs: seq<PtnRegion>, f: int, l: int, start: int, next: int, lg: Largest)
    requires Best(regs, f, l, start, lg) && start <= next
    requires forall lba :: start <= lba < next ==> !Vacant(regs, f, l, lba)
    ensures Best(regs, f, l, next, lg)
  {
    forall a, b | VacantRun(regs, f, l, a, b) ensures !(start <= b < next) {
      assert Vacant(regs, f, l, b);
    }
  }

  /** Between one region and the next there is nothing. */
  lemma GapIsVacant(regs: seq<PtnRegion>, f: int, l: int, i: nat, base: int, start: int)
    requires Apart(regs, f, l) && Sorted(regs) && i <= |regs|
    requires base == if i == 0 then f else regs[i - 1].end + 1
    requires start == if i == |regs| then l + 1 else regs[i].start
    requires f <= l + 1
    ensures f <= base <= start <= l + 1
    ensures forall lba :: base <= lba < start ==> Vacant(regs, f, l, lba)
    ensures base == f || !Vacant(regs, f, l, base - 1)
  {
    assert i > 0 ==> regs[i - 1].start <= base - 1 <= regs[i - 1].end;
    forall lba | base <= lba < start ensures Vacant(regs, f, l, lba) {
      forall j | 0 <= j < |regs| ensures !(regs[j].start <= lba <= regs[j].end) {
        assert j < i - 1 ==> regs[j].start <= regs[i - 1].start;
        assert j > i ==> regs[i].start <= regs[j].start;
      }
    }
  }

  /** One step of the sweep. */
  lemma SweepStep(regs: seq<PtnRegion>, f: int, l: int, i: nat, base: uint64, lg: Largest)
    requires Apart(regs, f, l) && Sorted(regs) && i < |regs| && f <= l + 1
    requires base == if i == 0 then f else regs[i - 1].end + 1
    requires Best(regs, f, l, base, lg)
    ensures Best(regs, f, l, regs[i].end + 1, Updated(lg, base, regs[i].start))
  {
    GapIsVacant(regs, f, l, i, base, regs[i].start);
    BestOverGap(regs, f, l, base, regs[i].start, lg);
    forall lba | regs[i].start <= lba < regs[i].end + 1 ensures !Vacant(regs, f, l, lba) {
      assert InRegion(regs, lba);
    }
    BestOverRegion(regs, f, l, regs[i].start, regs[i].end + 1, Updated(lg, base, regs[i].start));
  }

  predicate FreeRun(t: Table, a: int, b: int) {
    a <= b && forall lba :: a <= lba <= b ==> Free(t, lba)
  }

  /** [s, e] is free, no free run is longer, and those as long start no earlier. */
  ghost predicate FirstLongest(t: Table, s: int, e: int) {
    && FreeRun(t, s, e)
    && forall a, b :: FreeRun(t, a, b) ==> b - a <= e - s && (b - a == e - s ==> s <= a)
  }

  /** There is at most one answer. */
  lemma FirstLongestUnique(t: Table, s: int, e: int, s': int, e': int)
    requires FirstLongest(t, s, e) && FirstLongest(t, s', e')
    ensures s == s' && e == e'
  {
    assert FreeRun(t, s, e) && FreeRun(t, s', e');
  }

  /** The table is one for which the program's 64-bit sums and comparisons are right. */
  predicate Sweepable(t: Table) {
    WellLaid(t) && t.header.firstUsable <= t.header.lastUsable + 1 && t.header.lastUsable < TWO_63
  }

  /** The best gap of the regions, sorted, is the first of the longest free runs of the table. */
  lemma BestIsFirstLongest(t: Table, regs: seq<PtnRegion>, lg: Largest)
    requires multiset(regs) == multiset(Regions(t.entries))
    requires Best(regs, t.header.firstUsable, t.header.lastUsable, t.header.lastUsable + 1, lg)
    ensures lg.size == 0 ==> forall lba :: !Free(t, lba)
    ensures lg.size > 0 ==> FirstLongest(t, lg.start, lg.end)
  {
    var f, l := t.header.firstUsable, t.header.lastUsable;
    forall lba ensures Vacant(regs, f, l, lba) <==> Free(t, lba) {
      RegionsCover(t.entries, lba);
      if InRegion(regs, lba) {
        InRegionByMultiset(regs, Regions(t.entries), lba);
      }
      if InRegion(Regions(t.entries), lba) {
        InRegionByMultiset(Regions(t.entries), regs, lba);
      }
    }
    if lg.size > 0 {
      assert VacantRun(regs, f, l, lg.start, lg.end);
      assert FreeRun(t, lg.start, lg.end);
    }
    forall a, b | FreeRun(t, a, b)
      ensures b - a + 1 <= lg.size && (b - a + 1 == lg.size ==> lg.start <= a)
    {
      assert Free(t, b);
      assert VacantRun(regs, f, l, a, b);
    }
  }

  lemma {:induction false} RegionsAppend(es: seq<Entry>, e: Entry)
    ensures Regions(es + [e]) == Regions(es) + if Live(e) then [PtnRegion(e.firstLba, e.lastLba)] else []
  {
    if es == [] {
      assert es + [e] == [e];
    } else {
      assert (es + [e])[1..] == es[1..] + [e];
      RegionsAppend(es[1..], e);
    }
  }

  lemma LargestIsFree(t: Table, lg: Largest)
    requires lg.size > 0 ==> FirstLongest(t, lg.start, lg.end)
    ensures lg.size > 0 ==> Free(t, lg.start)
  {
    assert lg.size > 0 ==> FreeRun(t, lg.start, lg.end);
  }
}
