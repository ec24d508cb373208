/** Exactly which requests malloc cannot be trusted with. */
module Overcommit {
  import opened Machine
  import opened PageSource
  import opened World
  import opened TagOps
  import opened Calls
  import opened MallocLemmas

  /** A heap of 4 MiB at 1 MiB: a request just under 2^31 bytes is granted. */
  lemma FooledOnce()
    ensures Overcommits(Fresh(0x10_0000, 0x50_0000), 0x7ff0_0000)
  {
    var s, size := Fresh(0x10_0000, 0x50_0000), 0x7ff0_0000;
    PagesBeforeWrap(size);
    GuardSum(Need(size), s.cur);
  }

  // ----- the bound that is safe in every state -----

  const MAX_HEAP := 0x4000_0000
  const MAX_REQUEST := 0x4000_0000 - HEADER

  /** With a heap that ends at or below 2^30, a request that with its header stays within 2^30
      never fools the page source. */
  lemma SmallIsSafe(s: Source, size: int)
    requires SourceOk(s) && s.end <= MAX_HEAP && 0 <= size <= MAX_REQUEST
    ensures !Overcommits(s, size)
  {
    assert s.cur < s.end;
    OvercommitsExactly(s, size);
  }

  /** Any larger request fools some page source in order. */
  lemma LargeFools(size: int) returns (s: Source)
    requires MAX_REQUEST < size < TWO32
    ensures SourceOk(s) && s.end <= MAX_HEAP && Overcommits(s, size)
  {
    s := if Need(size) < TWO31 then Fresh(MAX_HEAP - 1, MAX_HEAP) else Fresh(1, MAX_HEAP);
    assert Sum(s.held) == 0;
    OvercommitsExactly(s, size);
    if size + HEADER < TWO32 {
      PagesBeforeWrap(size);
    }
  }

  /** The bound is exact: it is 2^30 less the header, for a heap that ends at or below 2^30. */
  lemma RequestBoundExact(size: int)
    requires 0 <= size < TWO32
    ensures (forall s: Source | SourceOk(s) && s.end <= MAX_HEAP :: !Overcommits(s, size)) <==> size <= MAX_REQUEST
  {
    if size <= MAX_REQUEST {
      forall s: Source | SourceOk(s) && s.end <= MAX_HEAP
        ensures !Overcommits(s, size)
      {
        SmallIsSafe(s, size);
      }
    } else {
      var s := LargeFools(size);
    }
  }

  // ----- what a fooled page source does to the allocator -----

  /** A fooled page source hands out a chunk that is not inside the heap. */
  lemma FooledSource(s: Source, size: int)
    requires SourceOk(s) && 0 <= size && size + HEADER < TWO32 && Overcommits(s, size)
    ensures !SourceOk(Take(s, PagesFor(size)))
  {
    var v := Take(s, PagesFor(size));
    PagesBeforeWrap(size);
    assert s.cur in v.held && v.held[s.cur] == PagesFor(size) && v.granted != [];
    assert s.cur + PAGE * v.held[s.cur] == s.cur + Need(size);
  }

  /** What filing another tag and cutting it off leave alone in tag `t`. */
  ghost predicate SameBlock(v: World, w: World, t: int) {
    && t in w.owner
    && At(w.tags, t).size == At(v.tags, t).size && At(w.tags, t).index == At(v.tags, t).index
  }

  lemma InsertKeepsBlock(v: World, n: int, i: int, t: int)
    requires t in v.owner && t != n
    ensures SameBlock(v, InsertTag(v, n, i), t)
    ensures At(InsertTag(v, n, i).tags, t).realSize == At(v.tags, t).realSize
  {
  }

  lemma SplitKeepsBlock(v: World, t: int)
    requires t in v.owner && 0 <= At(v.tags, t).size && Behind(t, At(v.tags, t).size) != t
    ensures SameBlock(v, SplitTag(v, t), t)
    ensures At(SplitTag(v, t).tags, t).realSize <= At(v.tags, t).realSize
  {
    var n, cut := Behind(t, At(v.tags, t).size), CutTag(v, t);
    CutKeepsBlock(v, t);
    InsertKeepsBlock(cut, n, ClassOf(cut, n), t);
    SplitIs(v, t, cut, n);
  }

  lemma CutKeepsBlock(v: World, t: int)
    requires t in v.owner && 0 <= At(v.tags, t).size && Behind(t, At(v.tags, t).size) != t
    ensures SameBlock(v, CutTag(v, t), t)
    ensures At(CutTag(v, t).tags, t).realSize <= At(v.tags, t).realSize
  {
  }

  lemma InsertKeepsRight(v: World, n: int, i: int, t: int)
    requires t in v.owner
    ensures t in InsertTag(v, n, i).owner && At(InsertTag(v, n, i).tags, t).splitRight == At(v.tags, t).splitRight
  {
  }

  /** Where the sum wraps all the way round, the new header lies on the tag's own, and the tag
      becomes its own right neighbour. */
  lemma SplitOntoItself(v: World, t: int)
    requires t in v.owner && t != NULL && Behind(t, At(v.tags, t).size) == t
    ensures t in SplitTag(v, t).owner && At(SplitTag(v, t).tags, t).splitRight == t
  {
    var cut := CutTag(v, t);
    assert t in cut.owner && At(cut.tags, t).splitRight == t;
    InsertKeepsRight(cut, t, ClassOf(cut, t), t);
    SplitIs(v, t, cut, t);
  }

  lemma OwnNeighbour(u: World, t: int)
    requires t in u.owner && t != NULL && At(u.tags, t).splitRight == t
    ensures !Inv(u)
  {
    assert t in u.tags && u.owner[t] in u.src.held ==> !TagTiles(u, t);
  }

  /** A live tag with less room than its block asks for. */
  lemma TooSmall(v: World, u: World, t: int, size: int)
    requires SameBlock(v, u, t) && t != NULL && At(v.tags, t).size == size && At(v.tags, t).index == -1
    requires At(u.tags, t).realSize <= MIN_PAGES * PAGE < size
    ensures !Inv(u)
  {
    assert !WellSized(At(u.tags, t));
  }

  /** Whether it is split or not, a tag of sixteen pages cannot hold nearly 2^32 bytes. */
  lemma FooledTag(v: World, t: int, size: int)
    requires t in v.owner && t != NULL && MIN_PAGES * PAGE < size
    requires At(v.tags, t).size == size && At(v.tags, t).index == -1 && At(v.tags, t).realSize <= MIN_PAGES * PAGE
    ensures !Inv(v) && !Inv(SplitTag(v, t))
  {
    TooSmall(v, v, t, size);
    if Behind(t, size) == t {
      SplitOntoItself(v, t);
      OwnNeighbour(SplitTag(v, t), t);
    } else {
      SplitKeepsBlock(v, t);
      TooSmall(v, SplitTag(v, t), t, size);
    }
  }

  lemma BehindWraps(t: int, size: int)
    requires 0 <= t < TWO31 && TWO32 <= size + HEADER < TWO32 + HEADER
    ensures t <= Behind(t, size) < t + HEADER
  {
    assert Wrap(t + HEADER + size) == t + HEADER + size - TWO32;
  }

  /** When adding the header wraps, the block is sixteen pages for nearly 2^32 bytes, and what
      is cut off it starts among the bytes of its own header. */
  lemma FooledBySize(w: World, size: int)
    requires Inv(w) && TWO32 <= size + HEADER < TWO32 + HEADER
    ensures w.src.cur <= Behind(w.src.cur, size) < w.src.cur + HEADER
    ensures !Inv(Place(NewTag(w, size), w.src.cur, size))
  {
    var t, v := w.src.cur, PutSize(NewTag(w, size), w.src.cur, size);
    BehindWraps(t, size);
    PagesAfterWrap(size);
    assert At(v.tags, t).realSize == MIN_PAGES * PAGE && At(v.tags, t).size == size && At(v.tags, t).index == -1;
    FooledTag(v, t, size);
  }

  /** malloc keeps the allocator in order exactly for the requests that a listed tag fits or
      that do not fool the page source. */
  lemma MallocSafeExactly(w: World, size: int)
    requires Inv(w) && 0 <= size < TWO32
    ensures Inv(Malloc(w, size).0) <==> Servable(w, size)
  {
    CandidateExact(w, size);
    if Servable(w, size) {
      MallocKeepsInv(w, size);
    } else {
      ObtainParts(w, size, NULL);
      MallocParts(w, size, NewTag(w, size), w.src.cur);
      PlaceKeepsSource(NewTag(w, size), w.src.cur, size);
      if size + HEADER < TWO32 {
        FooledSource(w.src, size);
      } else {
        FooledBySize(w, size);
      }
    }
  }
}
