/** vmm.c: presence of pages in the two-level table. */
module PageTables {
  import opened Machine

  const ENTRIES := 1024
  const PAGES := 0x10_0000
  const LAST_PAGE := 0xffff_f000

  /** The flags of a page table entry that the region loops change. */
  datatype Entry = Entry(present: bool, writeable: bool, user: bool)

  const ABSENT := Entry(false, false, false)

  /** The table as one flat map: an entry for each page number. */
  type Flat = map<int, Entry>

  function PageOf(addr: int): int {
    addr / PAGE
  }

  /** allocate_page: an entry that is present already stays as it is. */
  function MapPage(m: Flat, n: int): Flat {
    if n in m && !m[n].present then m[n := Entry(true, true, true)] else m
  }

  /** free_page: an absent entry stays as it is. */
  function UnmapPage(m: Flat, n: int): Flat {
    if n in m && m[n].present then m[n := m[n].(present := false, writeable := false)] else m
  }

  /** Page by page from `lo` to `hi`, both included. */
  function MapRange(m: Flat, lo: int, hi: int): Flat
    decreases hi - lo
  {
    if hi < lo then m else MapRange(MapPage(m, lo), lo + 1, hi)
  }

  function UnmapRange(m: Flat, lo: int, hi: int): Flat
    decreases hi - lo
  {
    if hi < lo then m else UnmapRange(UnmapPage(m, lo), lo + 1, hi)
  }

  lemma MapNext(m: Flat, lo: int, hi: int)
    ensures MapRange(m, lo, hi) == if hi < lo then m else MapRange(MapPage(m, lo), lo + 1, hi)
  {
  }

  lemma UnmapNext(m: Flat, lo: int, hi: int)
    ensures UnmapRange(m, lo, hi) == if hi < lo then m else UnmapRange(UnmapPage(m, lo), lo + 1, hi)
  {
  }

  /** Mapping a range makes exactly its pages present; entries present before, and entries
      outside, are unchanged. */
  lemma {:induction false} MapRangeAt(m: Flat, lo: int, hi: int, n: int)
    ensures MapRange(m, lo, hi).Keys == m.Keys
    ensures n in m ==>
      MapRange(m, lo, hi)[n] == if lo <= n <= hi && !m[n].present then Entry(true, true, true) else m[n]
    decreases hi - lo
  {
    if lo <= hi {
      MapRangeAt(MapPage(m, lo), lo + 1, hi, n);
    }
  }

  lemma {:induction false} UnmapRangeAt(m: Flat, lo: int, hi: int, n: int)
    ensures UnmapRange(m, lo, hi).Keys == m.Keys
    ensures n in m ==>
      UnmapRange(m, lo, hi)[n]
        == if lo <= n <= hi && m[n].present then m[n].(present := false, writeable := false) else m[n]
    decreases hi - lo
  {
    if lo <= hi {
      UnmapRangeAt(UnmapPage(m, lo), lo + 1, hi, n);
    }
  }

  /** Unmapping after mapping makes the same pages absent, whatever they were before. */
  lemma UnmapAfterMap(m: Flat, lo: int, hi: int, n: int)
    requires n in m
    ensures var v := UnmapRange(MapRange(m, lo, hi), lo, hi);
      n in v && (v[n].present <==> m[n].present && !(lo <= n <= hi))
  {
    MapRangeAt(m, lo, hi, n);
    UnmapRangeAt(MapRange(m, lo, hi), lo, hi, n);
  }

  // ----- the two levels -----

  function DirIndex(vaddr: int): int {
    vaddr / (PAGE * ENTRIES)
  }

  function TableIndex(vaddr: int): int {
    vaddr / PAGE % ENTRIES
  }

  /** Directory and table index together are the page number: each directory entry spans 4 MiB, each
      table entry 4096 bytes. */
  lemma IndicesOfPage(vaddr: int)
    requires 0 <= vaddr < TWO32
    ensures 0 <= DirIndex(vaddr) < ENTRIES && 0 <= TableIndex(vaddr) < ENTRIES
    ensures DirIndex(vaddr) * ENTRIES + TableIndex(vaddr) == PageOf(vaddr) && 0 <= PageOf(vaddr) < PAGES
    ensures var a := DirIndex(vaddr) * 0x40_0000 + TableIndex(vaddr) * 0x1000; a <= vaddr < a + 0x1000
  {
    assert vaddr / (PAGE * ENTRIES) == vaddr / PAGE / ENTRIES;
  }

  /** An aligned address below the last page, and the address one page further. */
  lemma AtPage(n: int, start: int)
    requires 0 <= n && start == n * PAGE < LAST_PAGE
    ensures PageOf(start) == n && Wrap(start + PAGE) == (n + 1) * PAGE < TWO32
  {
  }

  class Directory {
    const tables: array<array?<Entry>>
    /** Every table allocated so far. */
    ghost var repr: set<array<Entry>>

    constructor ()
      ensures Valid() && fresh(repr) && fresh(tables)
      ensures forall n | 0 <= n < PAGES :: n in Value() && !Value()[n].present
    {
      tables := new array?<Entry>[ENTRIES](_ => null);
      repr := {};
    }

    ghost predicate Valid()
      reads this, tables, repr
    {
      && tables.Length == ENTRIES
      && (forall d | 0 <= d < ENTRIES && tables[d] != null :: tables[d] in repr && tables[d].Length == ENTRIES)
      && (forall d, e | 0 <= d < e < ENTRIES && tables[d] != null :: tables[d] != tables[e])
    }

    ghost function At(n: int): Entry
      requires Valid() && 0 <= n < PAGES
      reads this, tables, repr
    {
      var table := tables[n / ENTRIES];
      if table == null then ABSENT else table[n % ENTRIES]
    }

    ghost function Value(): Flat
      requires Valid()
      reads this, tables, repr
    {
      map n | 0 <= n < PAGES :: At(n)
    }

    /** A page table that does not exist yet is made, with every entry absent. */
    method EnsureTable(d: int)
      requires Valid() && 0 <= d < ENTRIES
      modifies this, tables
      ensures Valid() && Value() == old(Value()) && tables[d] != null && fresh(repr - old(repr))
    {
      if tables[d] == null {
        var table := new Entry[ENTRIES](_ => ABSENT);
        tables[d] := table;
        repr := repr + {table};
        assert forall n | 0 <= n < PAGES :: At(n) == old(At(n));
      }
    }

    method AllocatePage(vaddr: int)
      requires Valid() && 0 <= vaddr < TWO32
      modifies this, tables, repr
      ensures Valid() && Value() == MapPage(old(Value()), PageOf(vaddr)) && fresh(repr - old(repr))
    {
      IndicesOfPage(vaddr);
      var d, t := DirIndex(vaddr), TableIndex(vaddr);
      EnsureTable(d);
      var table := tables[d];
      if !table[t].present {
        SetEntry(d, t, Entry(true, true, true));
      }
    }

    method SetEntry(d: int, t: int, e: Entry)
      requires Valid() && 0 <= d < ENTRIES && 0 <= t < ENTRIES && tables[d] != null
      modifies repr
      ensures Valid() && Value() == old(Value())[d * ENTRIES + t := e]
    {
      var table := tables[d];
      table[t] := e;
      assert forall n | 0 <= n < PAGES :: At(n) == if n == d * ENTRIES + t then e else old(At(n));
    }

    method FreePage(vaddr: int)
      requires Valid() && 0 <= vaddr < TWO32
      modifies repr
      ensures Valid() && Value() == UnmapPage(old(Value()), PageOf(vaddr))
    {
      IndicesOfPage(vaddr);
      var d, t := DirIndex(vaddr), TableIndex(vaddr);
      if tables[d] == null {
        return;
      }
      var table := tables[d];
      if !table[t].present {
        return;
      }
      SetEntry(d, t, table[t].(present := false, writeable := false));
    }

    method AllocateRegion(startVa: int, endVa: int)
      requires Valid() && 0 <= startVa < TWO32 && 0 <= endVa < LAST_PAGE
      modifies this, tables, repr
      ensures Valid() && Value() == MapRange(old(Value()), PageOf(startVa), PageOf(endVa)) && fresh(repr - old(repr))
    {
      var start, end := startVa / PAGE * PAGE, endVa / PAGE * PAGE;
      ghost var n, hi, m := PageOf(startVa), PageOf(endVa), Value();
      while start <= end
        invariant Valid() && fresh(repr - old(repr)) && 0 <= n && start == n * PAGE < TWO32
        invariant Value() == m && MapRange(m, n, hi) == MapRange(old(Value()), PageOf(startVa), hi)
        decreases end - start
      {
        AtPage(n, start);
        MapNext(m, n, hi);
        AllocatePage(start);
        start := Wrap(start + PAGE);
        n, m := n + 1, MapPage(m, n);
      }
      MapNext(m, n, hi);
    }

    method FreeRegion(startVa: int, endVa: int)
      requires Valid() && 0 <= startVa < TWO32 && 0 <= endVa < LAST_PAGE
      modifies repr
      ensures Valid() && Value() == UnmapRange(old(Value()), PageOf(startVa), PageOf(endVa))
    {
      var start, end := startVa / PAGE * PAGE, endVa / PAGE * PAGE;
      ghost var n, hi, m := PageOf(startVa), PageOf(endVa), Value();
      while start <= end
        invariant Valid() && 0 <= n && start == n * PAGE < TWO32
        invariant Value() == m && UnmapRange(m, n, hi) == UnmapRange(old(Value()), PageOf(startVa), hi)
        decreases end - start
      {
        AtPage(n, start);
        UnmapNext(m, n, hi);
        FreePage(start);
        start := Wrap(start + PAGE);
        n, m := n + 1, UnmapPage(m, n);
      }
      UnmapNext(m, n, hi);
    }
  }

  // ----- what the loops need, and what they mean for the heap -----

  /** The word `start` holds after k turns of either loop. */
  function StartAfter(start: int, k: nat): int {
    if k == 0 then start else Wrap(StartAfter(start, k - 1) + PAGE)
  }

  /** The loops end exactly when the end lies below the last page: with the end in it, every
      value `start` can take still passes the test. */
  lemma RegionLoopsEnd(startVa: int, endVa: int)
    requires 0 <= startVa < TWO32 && 0 <= endVa < TWO32
    ensures (exists k: nat :: StartAfter(startVa / PAGE * PAGE, k) > endVa / PAGE * PAGE) <==> endVa < LAST_PAGE
  {
    var start, end := startVa / PAGE * PAGE, endVa / PAGE * PAGE;
    if endVa < LAST_PAGE {
      if start <= end {
        var k := (end - start) / PAGE + 1;
        Climbs(start, k, end);
        assert StartAfter(start, k) > end;
      } else {
        assert StartAfter(start, 0) > end;
      }
    } else {
      forall k: nat
        ensures StartAfter(start, k) <= end
      {
        StaysAligned(start, k);
      }
    }
  }

  lemma {:induction false} Climbs(start: int, k: nat, end: int)
    requires 0 <= start && start + k * PAGE <= end + PAGE && 0 <= end < LAST_PAGE
    ensures StartAfter(start, k) == start + k * PAGE
    decreases k
  {
    if k != 0 {
      Climbs(start, k - 1, end);
    }
  }

  lemma {:induction false} StaysAligned(start: int, k: nat)
    requires 0 <= start < TWO32 && start % PAGE == 0
    ensures 0 <= StartAfter(start, k) <= LAST_PAGE
    ensures StartAfter(start, k) % PAGE == 0
    decreases k
  {
    if k != 0 {
      StaysAligned(start, k - 1);
    }
  }

  /** Every byte of a granted chunk is on a page that the grant maps. */
  lemma ChunkIsMapped(m: Flat, base: int, size: int, x: int)
    requires 0 <= base <= x < base + size < TWO32 && PageOf(x) in m
    ensures var v := MapRange(m, PageOf(base), PageOf(base + size)); PageOf(x) in v && v[PageOf(x)].present
  {
    MapRangeAt(m, PageOf(base), PageOf(base + size), PageOf(x));
  }

  /** Giving a chunk back also unmaps the page its end address lies on, and all of the page
      its first byte lies on: exactly the bytes there lose their mapping besides its own. */
  lemma ReleaseUnmaps(m: Flat, base: int, size: int, x: int)
    requires 0 <= base && 0 <= size && 0 <= x && PageOf(x) in m && m[PageOf(x)].present
    ensures var v := UnmapRange(m, PageOf(base), PageOf(base + size));
      PageOf(x) in v && (!v[PageOf(x)].present <==>
        base <= x < base + size || PageOf(x) == PageOf(base) || PageOf(x) == PageOf(base + size))
  {
    UnmapRangeAt(m, PageOf(base), PageOf(base + size), PageOf(x));
  }
}
