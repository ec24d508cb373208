/** rise.c: liballoc_alloc and liballoc_free with the page tables they change. */
module PageHooks {
  import opened Machine
  import opened PageSource
  import opened PageTables
  import opened LibAlloc

  /** The end address of a chunk, which is still part of the region mapped for it. */
  function EndOf(base: int, pages: int): int {
    Wrap(base + Wrap(pages * PAGE))
  }

  class Hooks {
    const pages: Pages
    const directory: Directory

    constructor (start: int, end: int)
      ensures Valid() && pages.Value() == Fresh(start, end)
      ensures fresh(pages) && fresh(directory) && fresh(directory.tables) && fresh(directory.repr)
    {
      pages := new Pages(start, end);
      directory := new Directory();
    }

    ghost predicate Valid()
      reads directory, directory.tables, directory.repr
    {
      directory.Valid()
    }

    /** A grant maps all pages from the chunk's first to the one its end address lies on. */
    method LiballocAlloc(count: int) returns (base: int)
      requires Valid() && 0 <= pages.cur < TWO32
      requires Allows(pages.Value(), count) ==> EndOf(pages.cur, count) < LAST_PAGE
      modifies pages, directory, directory.tables, directory.repr
      ensures Valid() && fresh(directory.repr - old(directory.repr))
      ensures
        var s, m := old(pages.Value()), old(directory.Value());
        if Allows(s, count) then
          && base == s.cur && pages.Value() == Take(s, count)
          && directory.Value() == MapRange(m, PageOf(s.cur), PageOf(EndOf(s.cur, count)))
        else base == NULL && pages.Value() == s && directory.Value() == m
    {
      var size := Wrap(count * PAGE);
      if AsInt(Wrap(size + pages.cur)) >= AsInt(pages.end) {
        return NULL;
      }
      directory.AllocateRegion(pages.cur, Wrap(pages.cur + size));
      base := pages.Alloc(count);
    }

    /** Giving a chunk back unmaps the same pages, and always reports 1. */
    method LiballocFree(base: int, count: int) returns (r: int)
      requires Valid() && 0 <= base < TWO32 && EndOf(base, count) < LAST_PAGE
      modifies pages, directory.repr
      ensures Valid() && r == 1 && pages.Value() == GiveBack(old(pages.Value()), base, count)
      ensures directory.Value() == UnmapRange(old(directory.Value()), PageOf(base), PageOf(EndOf(base, count)))
    {
      directory.FreeRegion(base, Wrap(base + Wrap(count * PAGE)));
      pages.Free(base, count);
      r := 1;
    }
  }

  /** A grant that the heap has room for maps every byte of its chunk, and its region loop ends. */
  lemma GrantIsMapped(s: Source, pages: int, m: Flat, x: int)
    requires SourceOk(s) && MIN_PAGES <= pages && s.cur + PAGE * pages < s.end
    requires s.cur <= x < s.cur + PAGE * pages && PageOf(x) in m
    ensures EndOf(s.cur, pages) == s.cur + PAGE * pages < LAST_PAGE
    ensures var v := MapRange(m, PageOf(s.cur), PageOf(EndOf(s.cur, pages))); PageOf(x) in v && v[PageOf(x)].present
  {
    ChunkIsMapped(m, s.cur, PAGE * pages, x);
  }

  // ----- what returning a chunk does to the mapping of the others -----

  function ChunkEnd(s: Source, b: int): int
    requires b in s.held
  {
    b + PAGE * s.held[b]
  }

  /** Every byte of every held chunk is mapped. */
  ghost predicate HeldMapped(s: Source, m: Flat) {
    forall c, x | c in s.held && c <= x < ChunkEnd(s, c) :: PageOf(x) in m && m[PageOf(x)].present
  }

  /** All chunks begin at the same offset in their page. */
  lemma {:induction false} GrantOffset(s: Source, i: nat)
    requires SourceOk(s) && i < |s.granted|
    ensures s.granted[i].base % PAGE == s.start % PAGE
    decreases i
  {
    if i != 0 {
      GrantOffset(s, i - 1);
      assert Next(s, i - 1) == s.granted[i].base;
      SameOffset(s.granted[i - 1].base, s.granted[i - 1].pages);
    }
  }

  lemma SameOffset(base: int, pages: int)
    ensures (base + PAGE * pages) % PAGE == base % PAGE
  {
  }

  lemma HeldOffset(s: Source, b: int)
    requires SourceOk(s) && b in s.held
    ensures b % PAGE == s.start % PAGE == ChunkEnd(s, b) % PAGE
  {
    var i :| 0 <= i < |s.granted| && s.granted[i] == Grant(b, s.held[b]);
    GrantOffset(s, i);
    SameOffset(b, s.held[b]);
  }

  /** Addresses at the same offset in their page are whole pages apart. */
  lemma NextAtOffset(a: int, b: int)
    requires 0 <= a < b && a % PAGE == b % PAGE
    ensures a + PAGE <= b
  {
  }

  /** Chunk `c` neither begins where `b` ends nor ends in the page where `b` begins. */
  ghost predicate OffThePagesOf(s: Source, b: int, c: int)
    requires b in s.held && c in s.held
  {
    c != ChunkEnd(s, b) && (b % PAGE == 0 || ChunkEnd(s, c) != b)
  }

  lemma OtherStaysMapped(s: Source, b: int, c: int, x: int)
    requires SourceOk(s) && b in s.held && c in s.held && c != b && c <= x < ChunkEnd(s, c)
    requires OffThePagesOf(s, b, c)
    ensures !(b <= x < ChunkEnd(s, b)) && PageOf(x) != PageOf(b) && PageOf(x) != PageOf(ChunkEnd(s, b))
  {
    HeldOffset(s, b);
    HeldOffset(s, c);
    if b < c {
      NextAtOffset(ChunkEnd(s, b), c);
    } else if ChunkEnd(s, c) != b {
      NextAtOffset(ChunkEnd(s, c), b);
    }
  }

  /** The mapping after chunk `b` has been returned. */
  function Returned(s: Source, b: int, m: Flat): Flat
    requires b in s.held
  {
    UnmapRange(m, PageOf(b), PageOf(EndOf(b, s.held[b])))
  }

  lemma EndNotWrapped(s: Source, b: int)
    requires SourceOk(s) && b in s.held
    ensures EndOf(b, s.held[b]) == ChunkEnd(s, b) && 0 < b < ChunkEnd(s, b)
  {
  }

  lemma ChunksApart(s: Source, b: int, c: int, x: int)
    requires SourceOk(s) && b in s.held && c in s.held && c != b && c <= x < ChunkEnd(s, c)
    ensures 0 < x && !(b <= x < ChunkEnd(s, b))
  {
  }

  /** Which bytes of other chunks lose their mapping. */
  lemma ByteAfterReturn(s: Source, b: int, m: Flat, c: int, x: int)
    requires SourceOk(s) && b in s.held && HeldMapped(s, m)
    requires c in s.held && c != b && c <= x < ChunkEnd(s, c)
    ensures PageOf(x) in Returned(s, b, m)
    ensures Returned(s, b, m)[PageOf(x)].present <==> PageOf(x) != PageOf(b) && PageOf(x) != PageOf(ChunkEnd(s, b))
  {
    EndNotWrapped(s, b);
    ChunksApart(s, b, c, x);
    ReleaseUnmaps(m, b, PAGE * s.held[b], x);
  }

  lemma SharedPage(s: Source, b: int, c: int) returns (x: int)
    requires SourceOk(s) && b in s.held && c in s.held && c != b && !OffThePagesOf(s, b, c)
    ensures c <= x < ChunkEnd(s, c) && (PageOf(x) == PageOf(b) || PageOf(x) == PageOf(ChunkEnd(s, b)))
  {
    x := if c == ChunkEnd(s, b) then c else b - 1;
  }

  lemma OtherLosesAPage(s: Source, b: int, c: int, m: Flat)
    requires SourceOk(s) && b in s.held && c in s.held && c != b && HeldMapped(s, m) && !OffThePagesOf(s, b, c)
    ensures !HeldMapped(GiveBack(s, b, s.held[b]), Returned(s, b, m))
  {
    var x := SharedPage(s, b, c);
    ByteAfterReturn(s, b, m, c, x);
    NotMapped(GiveBack(s, b, s.held[b]), Returned(s, b, m), c, x);
  }

  lemma NotMapped(s: Source, m: Flat, c: int, x: int)
    requires c in s.held && c <= x < ChunkEnd(s, c) && !(PageOf(x) in m && m[PageOf(x)].present)
    ensures !HeldMapped(s, m)
  {
  }

  lemma OthersStayMapped(s: Source, b: int, m: Flat)
    requires SourceOk(s) && b in s.held && HeldMapped(s, m)
    requires forall c | c in s.held && c != b :: OffThePagesOf(s, b, c)
    ensures HeldMapped(GiveBack(s, b, s.held[b]), Returned(s, b, m))
  {
    forall c, x | c in s.held && c != b && c <= x < ChunkEnd(s, c)
      ensures PageOf(x) in Returned(s, b, m) && Returned(s, b, m)[PageOf(x)].present
    {
      OtherStaysMapped(s, b, c, x);
      ByteAfterReturn(s, b, m, c, x);
    }
  }

  /** Returning a chunk keeps every byte of the other held chunks mapped if and only if none of
      them begins where it ends, and none ends where it begins in the middle of a page. */
  lemma ReturnSparesOthersExactly(s: Source, b: int, m: Flat)
    requires SourceOk(s) && b in s.held && HeldMapped(s, m)
    ensures HeldMapped(GiveBack(s, b, s.held[b]), Returned(s, b, m))
       <==> forall c | c in s.held && c != b :: OffThePagesOf(s, b, c)
  {
    if c :| c in s.held && c != b && !OffThePagesOf(s, b, c) {
      OtherLosesAPage(s, b, c, m);
    } else {
      OthersStayMapped(s, b, m);
    }
  }
}
