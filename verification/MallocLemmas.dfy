/** malloc keeps the invariant, and adds exactly one block to the live ones. */
module MallocLemmas {
  import opened Machine
  import opened PageSource
  import opened World
  import opened TagOps
  import opened ListLemmas
  import opened ChainLemmas
  import opened FileLemmas
  import opened Calls
  import opened FreeLemmas

  /** The page source would grant the request although it does not fit: its 32-bit guard
      has been fooled by a sum that passed 2^31 or wrapped. */
  ghost predicate Overcommits(s: Source, size: int) {
    Allows(s, PagesFor(size)) && s.cur + Need(size) >= s.end
  }

  /** No tag of the request's own list has room for it and a second header. */
  ghost predicate NoneFits(w: World, size: int) {
    forall a | a in ListOf(w, Class(size)) :: At(w.tags, a).realSize < size + 64
  }

  /** The requests malloc can be trusted with: a listed tag fits, or the guard is not fooled. */
  ghost predicate Servable(w: World, size: int) {
    0 <= size < TWO32 && (NoneFits(w, size) ==> !Overcommits(w.src, size))
  }

  lemma NeedIsPages(size: int)
    requires 0 <= size && Need(size) < TWO31
    ensures PAGE * PagesFor(size) == Need(size) && size + HEADER <= Need(size) && MIN_PAGES <= PagesFor(size)
    ensures Need(size) <= Max(MIN_PAGES * PAGE, size + HEADER + PAGE - 1)
  {
    assert size + HEADER <= (size + HEADER + PAGE - 1) / PAGE * PAGE;
    assert Wrap(size + HEADER) == size + HEADER;
  }

  /** Unless it is fooled, the page source grants a request exactly when it fits below the end. */
  lemma GrantExact(s: Source, size: int)
    requires 0 < s.cur && 0 < s.end < TWO31 && 0 <= size && !Overcommits(s, size)
    ensures Allows(s, PagesFor(size)) <==> s.cur + Need(size) < s.end
    ensures Allows(s, PagesFor(size)) ==> PAGE * PagesFor(size) == Need(size)
  {
    if s.cur + Need(size) < s.end {
      NeedIsPages(size);
      TakeIsGrown(s, PagesFor(size));
    }
  }

  lemma GuardSum(bytes: int, cur: int)
    requires 0 <= bytes <= TWO32 && 0 <= cur < TWO31
    ensures AsInt(Wrap(Wrap(bytes) + cur)) ==
      if bytes + cur < TWO31 then bytes + cur
      else if bytes + cur < TWO32 + TWO31 then bytes + cur - TWO32
      else bytes + cur - TWO32 - TWO32
  {
    var low := if bytes < TWO32 then bytes else 0;
    assert Wrap(bytes) == low;
    assert Wrap(low + cur) == if low + cur < TWO32 then low + cur else low + cur - TWO32;
  }

  lemma PagesBeforeWrap(size: int)
    requires 0 <= size && size + HEADER < TWO32
    ensures PagesFor(size) * PAGE == Need(size) && MIN_PAGES * PAGE <= Need(size) <= TWO32
  {
    assert Wrap(size + HEADER) == size + HEADER;
  }

  lemma PagesAfterWrap(size: int)
    requires TWO32 <= size + HEADER < TWO32 + HEADER
    ensures PagesFor(size) == MIN_PAGES && TWO32 <= Need(size)
  {
    assert Wrap(size + HEADER) == size + HEADER - TWO32;
  }

  /** Exactly which sizes fool the guard: those whose last byte would lie in the upper half of
      the address space or, wrapped around, below the end; and those so large that adding the
      header already wraps, whenever the smallest chunk would be granted. */
  lemma OvercommitsExactly(s: Source, size: int)
    requires 0 < s.cur < s.end < TWO31 && 0 <= size < TWO32
    ensures size + HEADER < TWO32 ==>
      (Overcommits(s, size) <==> TWO31 <= s.cur + Need(size) < TWO32 + s.end)
    ensures size + HEADER >= TWO32 ==>
      (Overcommits(s, size) <==> s.cur + MIN_PAGES * PAGE < s.end || s.cur + MIN_PAGES * PAGE >= TWO31)
  {
    if size + HEADER < TWO32 {
      PagesBeforeWrap(size);
      GuardSum(Need(size), s.cur);
    } else {
      PagesAfterWrap(size);
      GuardSum(MIN_PAGES * PAGE, s.cur);
    }
  }

  // ----- reuse of a listed tag -----

  lemma CandidateFits(w: World, size: int)
    requires Tiling(w) && Lists(w) && Sized(w, NULL) && 0 <= size < TWO32
    requires Candidate(w, size) != NULL
    ensures var t := Candidate(w, size);
      && t in w.owner && IsFree(w, t) && At(w.tags, t).index == Class(size)
      && size + 2 * HEADER <= At(w.tags, t).realSize
  {
    var t, i := Candidate(w, size), Class(size);
    ClassRange(size);
    var k := FirstFit(w.tags, w.lists[i], size);
    assert IsList(w, i) && Node(w, i, k);
    BelowCursor(w, t);
    ClassRange(At(w.tags, t).realSize - HEADER);
    assert WellSized(At(w.tags, t));
  }

  /** For a listed tag the wrapped fit test is the plain one. */
  lemma FitsExactly(w: World, size: int, k: nat)
    requires Tiling(w) && Lists(w) && Sized(w, NULL) && 0 <= size < TWO32
    requires k < |ListOf(w, Class(size))|
    ensures var a := ListOf(w, Class(size))[k];
      Fits(At(w.tags, a), size) <==> At(w.tags, a).realSize >= size + 64
  {
    var i := Class(size);
    ClassRange(size);
    assert IsList(w, i) && Node(w, i, k);
    var a := w.lists[i][k];
    BelowCursor(w, a);
    ClassRange(At(w.tags, a).realSize - HEADER);
    assert WellSized(At(w.tags, a));
  }

  /** The tag the search finds is the first of the list with room; none is found when none has. */
  lemma CandidateExact(w: World, size: int)
    requires Tiling(w) && Lists(w) && Sized(w, NULL) && 0 <= size < TWO32
    ensures Candidate(w, size) == NULL <==> NoneFits(w, size)
    ensures var l := ListOf(w, Class(size));
      forall k | 0 <= k < |l| && At(w.tags, l[k]).realSize >= size + 64
          && (forall j | 0 <= j < k :: At(w.tags, l[j]).realSize < size + 64) ::
        Candidate(w, size) == l[k]
  {
    ClassRange(size);
    var l := w.lists[Class(size)];
    var n := FirstFit(w.tags, l, size);
    forall k | 0 <= k < |l|
      ensures Fits(At(w.tags, l[k]), size) <==> At(w.tags, l[k]).realSize >= size + 64
      ensures l[k] != NULL
    {
      FitsExactly(w, size, k);
      assert IsList(w, Class(size)) && Node(w, Class(size), k);
    }
    if n < |l| {
      assert l[n] in l;
    } else {
      forall a | a in l
        ensures At(w.tags, a).realSize < size + 64
      {
        var k :| 0 <= k < |l| && l[k] == a;
      }
    }
  }

  lemma ReuseOk(w: World, t: int)
    requires Inv(w) && t in w.owner && IsFree(w, t)
    ensures Working(Reuse(w, t), t) && Coalesced(Reuse(w, t), t)
    ensures LiveBut(Reuse(w, t), t) == Live(w) && Reuse(w, t).owner == w.owner
    ensures At(Reuse(w, t).tags, t).realSize == At(w.tags, t).realSize
  {
    ListedIsFree(w, t);
    RemoveTagEffect(w, t);
    TilingFrame(w, RemoveTag(w, t));
    RemoveTagLists(w, t);
    UnfiledSized(w, t);
    UnfiledCoalesced(w, t);
    UnfiledLive(w, t);
    SameButCounts(RemoveTag(w, t), Reuse(w, t).complete);
    ReuseCounts(w, t);
  }

  lemma ReuseCounts(w: World, t: int)
    requires Lists(w) && Tiling(w) && Counts(w) && t in w.owner && IsFree(w, t)
    ensures Counts(Reuse(w, t))
  {
    ListedIsFree(w, t);
    RemoveTagEffect(w, t);
    var v, i := Reuse(w, t), At(w.tags, t).index;
    forall j | 0 <= j < MAX_EXP
      ensures v.complete[j] == |Wholes(v, j)| <= MAX_COMPLETE
    {
      UnfiledWholes(w, t, j);
      assert Wholes(v, j) == Wholes(RemoveTag(w, t), j);
      assert t in Wholes(w, j) <==> j == i && Whole(At(w.tags, t));
      assert w.complete[j] == |Wholes(w, j)|;
    }
  }

  // ----- a new chunk -----

  lemma NewTagIsGrown(w: World, size: int)
    requires 0 < w.src.cur && 0 <= size && w.src.cur + Need(size) < w.src.end < TWO31
    ensures ChunkAdded(w, NewTag(w, size), w.src.cur, PagesFor(size), size)
    ensures MIN_PAGES <= PagesFor(size) && PAGE * PagesFor(size) == Need(size)
    ensures size + HEADER <= At(NewTag(w, size).tags, w.src.cur).realSize == Need(size)
  {
    NeedIsPages(size);
    TakeIsGrown(w.src, PagesFor(size));
    assert Wrap(PagesFor(size) * PAGE) == PAGE * PagesFor(size);
  }

  lemma NewTagOk(w: World, size: int)
    requires Inv(w) && 0 <= size && Allows(w.src, PagesFor(size)) && !Overcommits(w.src, size)
    ensures var v, t := NewTag(w, size), w.src.cur;
      && t !in w.owner && Working(v, t) && Coalesced(v, t) && LiveBut(v, t) == Live(w)
      && size + HEADER <= At(v.tags, t).realSize == Need(size)
  {
    var v, t, pages := NewTag(w, size), w.src.cur, PagesFor(size);
    GrantExact(w.src, size);
    NewTagIsGrown(w, size);
    TakeOk(w.src, pages);
    GrownTiling(w, v, t, pages, size);
    GrownLists(w, v, t, pages, size);
    GrownCoalesced(w, v, t, pages, size);
    GrownLive(w, v, t, pages, size);
    GrownCounts(w, v, t, pages, size);
  }

  lemma GrownCounts(w: World, v: World, t: int, pages: int, size: int)
    requires ChunkAdded(w, v, t, pages, size) && t !in w.owner && Counts(w)
    ensures Counts(v)
  {
    forall i | 0 <= i < MAX_EXP
      ensures Wholes(v, i) == Wholes(w, i)
    {
      GrownWholes(w, v, t, pages, size, i);
    }
    CountsFrame(w, v);
  }

  // ----- placing the request in its tag -----

  lemma SetSizeKeeps(w: World, t: int, size: int)
    requires Working(w, t)
    ensures var v := PutSize(w, t, size); SameChains(w, v) && SameLists(w, v)
    ensures At(PutSize(w, t, size).tags, t) == At(w.tags, t).(size := size)
  {
  }

  lemma SetSizeOk(w: World, t: int, size: int)
    requires Working(w, t) && Coalesced(w, t)
    ensures var v := PutSize(w, t, size);
      && Working(v, t) && Coalesced(v, t) && LiveBut(v, t) == LiveBut(w, t)
      && At(v.tags, t) == At(w.tags, t).(size := size)
  {
    var v := PutSize(w, t, size);
    SetSizeKeeps(w, t, size);
    TilingFrame(w, v);
    ListsFrame(w, v);
    forall a | a in v.owner
      ensures NotBothFree(v, a, t)
    {
      assert NotBothFree(w, a, t);
    }
    CountsFrame(w, v);
  }

  lemma SetSizeWorks(w: World, t: int, size: int)
    ensures var v := PutSize(w, t, size);
      Working(w, t) && Coalesced(w, t) ==> Working(v, t) && At(v.tags, t) == At(w.tags, t).(size := size)
  {
    if Working(w, t) && Coalesced(w, t) {
      SetSizeOk(w, t, size);
    }
  }

  lemma RemainderExact(w: World, t: int)
    requires Working(w, t) && 0 <= At(w.tags, t).size && At(w.tags, t).size + HEADER <= At(w.tags, t).realSize
    ensures Remainder(w, t) == At(w.tags, t).realSize - At(w.tags, t).size - 2 * HEADER
    ensures Remainder(w, t) > 0 && Exp(Remainder(w, t)) >= 0 <==> Remainder(w, t) >= 256
  {
    BelowCursor(w, t);
  }

  /** The cut-off tag is ready to be filed. */
  lemma CutOk(w: World, t: int)
    requires Working(w, t) && Coalesced(w, t) && Cuttable(w, t)
    ensures var v, n := CutTag(w, t), CutPoint(w, t);
      && Working(v, n) && Coalesced(v, n) && !Whole(At(v.tags, n))
      && LiveBut(v, n) == LiveBut(w, t)[t := At(w.tags, t).size]
  {
    var v, n := CutTag(w, t), CutPoint(w, t);
    CutPointIsNew(w, t);
    BelowCursor(w, t);
    CutEffect(w, t);
    CutTiling(w, v, t, n);
    ListsFrame(w, v);
    CutSized(w, v, t, n);
    CutCoalesced(w, v, t, n);
    CutLive(w, v, t, n);
    forall i | 0 <= i < MAX_EXP
      ensures Wholes(v, i) == Wholes(w, i)
    {
      CutWholes(w, v, t, n, i);
    }
    CountsFrame(w, v);
  }

  lemma SplitOk(w: World, t: int)
    requires Working(w, t) && Coalesced(w, t) && Cuttable(w, t)
    ensures Inv(SplitTag(w, t))
    ensures Live(SplitTag(w, t)) == LiveBut(w, t)[t := At(w.tags, t).size]
  {
    var v, n := CutTag(w, t), CutPoint(w, t);
    SplitIs(w, t, v, n);
    CutOk(w, t);
    InsertPlainOk(v, n);
  }

  lemma InsertPlainOk(v: World, n: int)
    requires Working(v, n) && Coalesced(v, n) && !Whole(At(v.tags, n))
    ensures var u := InsertTag(v, n, ClassOf(v, n)); Inv(u) && Live(u) == LiveBut(v, n)
  {
    ClassInRange(v, n);
    InsertOk(v, n, ClassOf(v, n));
    CountsAfterPlainInsert(v, n, ClassOf(v, n));
  }

  lemma PlaceOk(w: World, t: int, size: int)
    requires Working(w, t) && Coalesced(w, t) && 0 <= size && size + HEADER <= At(w.tags, t).realSize
    ensures Inv(Place(w, t, size))
    ensures Live(Place(w, t, size)) == LiveBut(w, t)[t := size]
  {
    var v := PutSize(w, t, size);
    SetSizeOk(w, t, size);
    RemainderExact(v, t);
    if Remainder(v, t) >= 256 {
      SplitOk(v, t);
    } else {
      KeptWhole(v, t);
    }
  }

  lemma KeptWhole(v: World, t: int)
    requires Working(v, t) && Coalesced(v, t) && WellSized(At(v.tags, t))
    ensures Inv(v) && Live(v) == LiveBut(v, t)[t := At(v.tags, t).size]
  {
    BelowCursor(v, t);
    forall a | a in v.owner
      ensures NotBothFree(v, a, NULL)
    {
      assert NotBothFree(v, a, t);
    }
  }

  /** `block` has become live with this size, and nothing else has changed. */
  ghost predicate Adds(w: World, v: World, block: int, size: int) {
    Inv(v) && !IsLive(w, block) && Live(v) == Live(w)[block := size]
  }

  /** `t` is in no list of `v`, has room for the request, and no block has changed since `w`. */
  ghost predicate Obtained(w: World, v: World, t: int, size: int) {
    && Working(v, t) && Coalesced(v, t) && LiveBut(v, t) == Live(w) && !IsLive(w, t) && t > 0
    && 0 <= size && size + HEADER <= At(v.tags, t).realSize
  }

  lemma ReuseObtained(w: World, size: int)
    requires Inv(w) && 0 <= size < TWO32 && Candidate(w, size) != NULL
    ensures Obtained(w, Reuse(w, Candidate(w, size)), Candidate(w, size), size)
  {
    CandidateFits(w, size);
    BelowCursor(w, Candidate(w, size));
    ReuseOk(w, Candidate(w, size));
  }

  lemma NewTagObtained(w: World, size: int)
    requires Inv(w) && 0 <= size && Allows(w.src, PagesFor(size)) && !Overcommits(w.src, size)
    ensures Obtained(w, NewTag(w, size), w.src.cur, size)
  {
    NewTagOk(w, size);
  }

  /** The first part of malloc finds room, or nothing. */
  lemma ObtainOk(w: World, size: int)
    requires Inv(w) && Servable(w, size)
    ensures var (v, t) := Obtain(w, size); t != NULL ==> Obtained(w, v, t, size)
  {
    ObtainParts(w, size, Candidate(w, size));
    CandidateExact(w, size);
    if Candidate(w, size) != NULL {
      ReuseObtained(w, size);
    } else if Allows(w.src, PagesFor(size)) {
      NewTagObtained(w, size);
    }
  }

  /** A tag with room becomes the requested block. */
  lemma PlaceAdds(w: World, v: World, t: int, size: int, u: World, ptr: int)
    requires u == Place(v, t, size) && ptr == t + HEADER
    ensures Obtained(w, v, t, size) ==> ptr > NULL && Adds(w, u, ptr - HEADER, size)
  {
    if Obtained(w, v, t, size) {
      PlaceOk(v, t, size);
    }
  }

  lemma ObtainedAdds(w: World, v: World, t: int, size: int, r: (World, int))
    requires r == if t == NULL then (w, NULL) else (Place(v, t, size), t + HEADER)
    ensures (t != NULL ==> Obtained(w, v, t, size)) && r.1 != NULL ==> r.1 > NULL && Adds(w, r.0, r.1 - HEADER, size)
  {
    PlaceAdds(w, v, t, size, Place(v, t, size), t + HEADER);
  }

  lemma MallocAdds(w: World, size: int)
    requires Inv(w) && Servable(w, size)
    ensures var (u, ptr) := Malloc(w, size); ptr != NULL ==> ptr > NULL && Adds(w, u, ptr - HEADER, size)
  {
    var (v, t) := Obtain(w, size);
    ObtainOk(w, size);
    MallocParts(w, size, v, t);
    ObtainedAdds(w, v, t, size, Malloc(w, size));
  }

  /** malloc fails exactly when no tag of the request's own list fits and the pages it would
      need reach the end of the heap; a failing call changes nothing. */
  lemma MallocFailsExactly(w: World, size: int)
    requires Tiling(w) && Lists(w) && Sized(w, NULL) && Servable(w, size)
    ensures Malloc(w, size).1 == NULL <==>
            NoneFits(w, size) && w.src.cur + Need(size) >= w.src.end
    ensures Malloc(w, size).1 == NULL ==> Malloc(w, size).0 == w
  {
    CandidateExact(w, size);
    if Candidate(w, size) != NULL {
      CandidateFits(w, size);
      BelowCursor(w, Candidate(w, size));
    } else {
      GrantExact(w.src, size);
    }
  }

  /** A succeeding malloc adds exactly the returned block to the live ones. */
  lemma MallocKeepsInv(w: World, size: int)
    requires Inv(w) && Servable(w, size)
    ensures Inv(Malloc(w, size).0)
    ensures Malloc(w, size).1 != NULL ==> Adds(w, Malloc(w, size).0, Malloc(w, size).1 - HEADER, size)
  {
    MallocFailsExactly(w, size);
    MallocAdds(w, size);
  }

  /** What a caller of malloc gets: NULL, and nothing changed, exactly when no tag of the
      request's own list fits and its pages would reach the end of the heap; otherwise one
      more live block of the requested size. */
  ghost predicate Serves(w: World, size: int, v: World, ptr: int) {
    && (ptr == NULL <==> NoneFits(w, size) && w.src.cur + Need(size) >= w.src.end)
    && (ptr == NULL ==> v == w)
    && (ptr != NULL ==> Adds(w, v, ptr - HEADER, size))
  }

  lemma MallocServes(w: World, size: int)
    requires Inv(w) && Servable(w, size)
    ensures Serves(w, size, Malloc(w, size).0, Malloc(w, size).1)
  {
    MallocFailsExactly(w, size);
    MallocKeepsInv(w, size);
  }
}
