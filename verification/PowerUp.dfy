/** The classes put to use from power-up on. */
module PowerUp {
  import opened Machine
  import opened World
  import opened TagOps
  import opened Calls
  import opened ChainLemmas
  import opened MallocLemmas
  import opened Overcommit
  import opened Runs
  import opened LibAlloc
  import opened FrameBitmap

  lemma Restored(w: World, size: int, v: World, ptr: int)
    requires Inv(w) && Serves(w, size, v, ptr)
    ensures Live(v) - {ptr - HEADER} == Live(w)
  {
    if ptr == NULL {
      NothingBelowTheHeap(w);
    }
  }

  lemma NothingBelowTheHeap(w: World)
    requires Inv(w)
    ensures NULL - HEADER !in Live(w)
  {
    if NULL - HEADER in w.owner {
      BelowCursor(w, NULL - HEADER);
    }
  }

  /** What a block taken and given back leaves behind. */
  ghost predicate Borrowed(w: World, size: int, v: World, ptr: int) {
    && Live(v) == Live(w) && v.src.end == w.src.end
    && (ptr == NULL <==> NoneFits(w, size) && w.src.cur + Need(size) >= w.src.end)
  }

  lemma FreeAfterServe(w: World, size: int, v: World, ptr: int)
    requires Inv(w) && Serves(w, size, v, ptr) && v.src.end == w.src.end
    ensures MayFree(v, ptr) && Borrowed(w, size, Free(v, ptr), ptr)
  {
    assert ptr != NULL ==> ptr - HEADER in Live(v);
    Restored(w, size, v, ptr);
    FreeReleases(v, ptr);
    FreeEnds(v, ptr);
  }

  lemma BorrowPlan(w: World, size: int)
    requires Inv(w) && w.src.end <= MAX_HEAP && 0 <= size <= MAX_REQUEST
    ensures Legal(w, DoMalloc(size))
    ensures var (v, p) := Malloc(w, size); MayFree(v, p) && Borrowed(w, size, Free(v, p), p)
  {
    SmallIsSafe(w.src, size);
    MallocServes(w, size);
    MallocEnds(w, size);
    FreeAfterServe(w, size, Malloc(w, size).0, Malloc(w, size).1);
  }

  /** A block taken and given back. */
  method Borrow(heap: Allocator, size: int) returns (p: int)
    requires heap.Valid() && Legal(heap.w, DoMalloc(size))
    requires MayFree(Malloc(heap.w, size).0, Malloc(heap.w, size).1)
    modifies heap, heap.freePages, heap.completePages, heap.pages, heap.repr
    ensures heap.Valid()
    ensures heap.w == Free(Malloc(old(heap.w), size).0, p) && p == Malloc(old(heap.w), size).1
  {
    p := heap.Malloc(size);
    heap.Free(p);
  }

  lemma FreshPlan(w: World, start: int, size: int)
    requires 0 < start && start + 1024 * PAGE <= MAX_HEAP && 0 <= size <= MAX_REQUEST
    requires w == Initial(start, start + 1024 * PAGE)
    ensures Legal(w, DoMalloc(size))
    ensures var (v, p) := Malloc(w, size);
      MayFree(v, p) && Live(Free(v, p)) == map[] && (p != NULL <==> Need(size) < 1024 * PAGE)
  {
    InitialInv(start, start + 1024 * PAGE);
    BorrowPlan(w, size);
  }

  /** From power-up with 4 MiB, a block of any safe size taken and given back: the request is
      served exactly when it leaves room in the heap, and nothing is live at the end. */
  method FromPowerUp(start: int, size: int) returns (heap: Allocator, p: int)
    requires 0 < start && start + 1024 * PAGE <= MAX_HEAP && 0 <= size <= MAX_REQUEST
    ensures heap.Valid() && Live(heap.w) == map[]
    ensures p != NULL <==> Need(size) < 1024 * PAGE
  {
    heap := new Allocator(start, start + 1024 * PAGE);
    FreshPlan(heap.w, start, size);
    p := Borrow(heap, size);
  }

  /** With a base that is not page aligned, a frame given back is the next one taken. */
  method FrameComesBack(base: int, behind: seq<int>) returns (a: int, b: int, c: int)
    requires FrameBitmap.Fits(base) && base % PAGE != 0
    requires |behind| == ALL_WORDS - WORDS && forall x | x in behind :: 0 <= x < TWO32
    ensures a == c != b && a % PAGE == 0 && b % PAGE == 0
  {
    var frames := new FrameAllocator(base, behind);
    assert LeastFree(frames.Used(), 0) == 0;
    a := frames.KallocPageFrame();
    assert LeastFree(frames.Used(), 0) == 1;
    b := frames.KallocPageFrame();
    FreeFindsTheBit(base, 0);
    AddressOfFrame(base, 0);
    AddressOfFrame(base, 1);
    frames.KfreePageFrame(a);
    assert LeastFree(frames.Used(), 0) == 0;
    c := frames.KallocPageFrame();
  }
}
