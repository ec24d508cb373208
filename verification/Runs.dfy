/** Whole runs of the allocator: any sequence of malloc and free calls on live pointers. */
module Runs {
  import opened Machine
  import opened PageSource
  import opened World
  import opened TagOps
  import opened Calls
  import opened FreeLemmas
  import opened MallocLemmas
  import opened Theorems

  datatype Call = DoMalloc(size: int) | DoFree(ptr: int)

  ghost function Step(w: World, c: Call): World {
    match c
    case DoMalloc(size) => Malloc(w, size).0
    case DoFree(ptr) => Free(w, ptr)
  }

  /** The pointer malloc returns; free returns none. */
  ghost function Result(w: World, c: Call): int {
    match c
    case DoMalloc(size) => Malloc(w, size).1
    case DoFree(_) => NULL
  }

  /** NULL, a live block, or an address where the magic word is missing. */
  ghost predicate MayFree(w: World, ptr: int) {
    ptr == NULL || IsLive(w, ptr - HEADER) || At(w.tags, ptr - HEADER).magic != MAGIC
  }

  /** What a caller owes: any 32-bit size that malloc can be trusted with, and for free
      a pointer it may free. */
  ghost predicate Legal(w: World, c: Call) {
    match c
    case DoMalloc(size) => Servable(w, size)
    case DoFree(ptr) => MayFree(w, ptr)
  }

  ghost function Run(w: World, calls: seq<Call>): World
    decreases calls
  {
    if calls == [] then w else Run(Step(w, calls[0]), calls[1..])
  }

  ghost predicate LegalRun(w: World, calls: seq<Call>)
    decreases calls
  {
    calls == [] || (Legal(w, calls[0]) && LegalRun(Step(w, calls[0]), calls[1..]))
  }

  // ----- the abstract allocator -----

  /** One call on the abstract allocator, given the pointer it returns. */
  ghost function AbstractStep(live: map<int, int>, c: Call, ptr: int): map<int, int> {
    match c
    case DoMalloc(size) => if ptr == NULL then live else live[ptr - HEADER := size]
    case DoFree(p) => live - {p - HEADER}
  }

  ghost predicate AbstractLegal(live: map<int, int>, c: Call, ptr: int) {
    c.DoMalloc? && ptr != NULL ==> ptr - HEADER !in live
  }

  lemma FreeOfNothing(w: World, ptr: int)
    requires ptr == NULL || At(w.tags, ptr - HEADER).magic != MAGIC
    ensures Free(w, ptr) == w
  {
  }

  /** `v` and `ptr` are what the abstract allocator allows after `c`, and `v` is in order. */
  ghost predicate Refines(w: World, c: Call, v: World, ptr: int) {
    && Inv(v) && AbstractLegal(Live(w), c, ptr)
    && Live(v) == AbstractStep(Live(w), c, ptr)
  }

  lemma ServedRefines(w: World, size: int, v: World, ptr: int)
    requires Inv(w) && Serves(w, size, v, ptr)
    ensures Refines(w, DoMalloc(size), v, ptr)
  {
  }

  lemma ReleasedRefines(w: World, ptr: int, v: World)
    requires Inv(v) && Live(v) == Live(w) - {ptr - HEADER}
    ensures Refines(w, DoFree(ptr), v, NULL)
  {
  }

  lemma MallocRefines(w: World, size: int)
    requires Inv(w) && Legal(w, DoMalloc(size))
    ensures Refines(w, DoMalloc(size), Malloc(w, size).0, Malloc(w, size).1)
  {
    MallocServes(w, size);
    ServedRefines(w, size, Malloc(w, size).0, Malloc(w, size).1);
  }

  /** free keeps the invariant; what was live at the pointer, if anything, no longer is. */
  lemma FreeReleases(w: World, ptr: int)
    requires Inv(w) && MayFree(w, ptr)
    ensures Inv(Free(w, ptr)) && Live(Free(w, ptr)) == Live(w) - {ptr - HEADER}
  {
    if IsLive(w, ptr - HEADER) {
      FreeKeepsInv(w, ptr);
    } else {
      FreeOfNothing(w, ptr);
      assert Live(w) - {ptr - HEADER} == Live(w);
    }
  }

  lemma FreeRefines(w: World, ptr: int)
    requires Inv(w) && MayFree(w, ptr)
    ensures Refines(w, DoFree(ptr), Free(w, ptr), NULL)
  {
    FreeReleases(w, ptr);
    ReleasedRefines(w, ptr, Free(w, ptr));
  }

  lemma StepIs(w: World, c: Call)
    ensures c.DoMalloc? ==> Step(w, c) == Malloc(w, c.size).0 && Result(w, c) == Malloc(w, c.size).1
    ensures c.DoFree? ==> Step(w, c) == Free(w, c.ptr) && Result(w, c) == NULL
  {
  }

  /** Every call keeps the invariant and is a step of the abstract allocator. */
  lemma StepRefines(w: World, c: Call)
    requires Inv(w) && Legal(w, c)
    ensures Refines(w, c, Step(w, c), Result(w, c))
  {
    StepIs(w, c);
    if c.DoMalloc? {
      assert c == DoMalloc(c.size);
      MallocRefines(w, c.size);
    } else {
      assert c == DoFree(c.ptr);
      FreeRefines(w, c.ptr);
    }
  }

  /** The pointers a run returns, in order. */
  ghost function Results(w: World, calls: seq<Call>): seq<int>
    decreases calls
  {
    if calls == [] then [] else [Result(w, calls[0])] + Results(Step(w, calls[0]), calls[1..])
  }

  ghost function AbstractRun(live: map<int, int>, calls: seq<Call>, ptrs: seq<int>): map<int, int>
    requires |calls| == |ptrs|
    decreases calls
  {
    if calls == [] then live
    else AbstractRun(AbstractStep(live, calls[0], ptrs[0]), calls[1..], ptrs[1..])
  }

  lemma {:induction false} ResultsLength(w: World, calls: seq<Call>)
    ensures |Results(w, calls)| == |calls|
    decreases calls
  {
    if calls != [] {
      ResultsLength(Step(w, calls[0]), calls[1..]);
    }
  }

  /** Every run refines the abstract allocator, and keeps the invariant throughout. */
  lemma {:induction false} RunRefines(w: World, calls: seq<Call>)
    requires Inv(w) && LegalRun(w, calls)
    ensures Inv(Run(w, calls))
    ensures |Results(w, calls)| == |calls|
    ensures Live(Run(w, calls)) == AbstractRun(Live(w), calls, Results(w, calls))
    decreases calls
  {
    ResultsLength(w, calls);
    if calls != [] {
      StepRefines(w, calls[0]);
      RunRefines(Step(w, calls[0]), calls[1..]);
      assert Results(w, calls)[1..] == Results(Step(w, calls[0]), calls[1..]);
    }
  }

  // ----- bytes in use -----

  /** Bytes a call adds: the size of a request that succeeded, less that of a block freed. */
  ghost function Change(live: map<int, int>, c: Call, ptr: int): int {
    match c
    case DoMalloc(size) => if ptr != NULL then size else 0
    case DoFree(p) => if p - HEADER in live then -live[p - HEADER] else 0
  }

  ghost function InUse(w: World, calls: seq<Call>): int
    decreases calls
  {
    if calls == [] then 0
    else Change(Live(w), calls[0], Result(w, calls[0])) + InUse(Step(w, calls[0]), calls[1..])
  }

  lemma AbstractChange(live: map<int, int>, c: Call, ptr: int)
    requires AbstractLegal(live, c, ptr)
    ensures Sum(AbstractStep(live, c, ptr)) == Sum(live) + Change(live, c, ptr)
  {
    match c
    case DoMalloc(size) =>
      SumWith(live, ptr - HEADER, size);
    case DoFree(p) =>
      if p - HEADER in live {
        SumWithout(live, p - HEADER);
      } else {
        assert live - {p - HEADER} == live;
      }
  }

  /** The live bytes are exactly what was requested and not yet released. */
  lemma {:induction false} BytesInUse(w: World, calls: seq<Call>)
    requires Inv(w) && LegalRun(w, calls)
    ensures Sum(Live(Run(w, calls))) == Sum(Live(w)) + InUse(w, calls)
    decreases calls
  {
    if calls != [] {
      var c := calls[0];
      StepRefines(w, c);
      AbstractChange(Live(w), c, Result(w, c));
      BytesInUse(Step(w, c), calls[1..]);
    }
  }

  // ----- the page source over a run -----

  lemma ShelveEnds(w: World, t: int)
    ensures Shelve(w, t).src.start == w.src.start && Shelve(w, t).src.end == w.src.end
  {
    var i := ClassOf(w, t);
    InsertTagKeeps(w, t, i);
    InsertTagKeeps(Recount(w, i, 1), t, i);
  }

  lemma MallocEnds(w: World, size: int)
    ensures Malloc(w, size).0.src.start == w.src.start && Malloc(w, size).0.src.end == w.src.end
  {
    var (v, t) := Obtain(w, size);
    ObtainParts(w, size, Candidate(w, size));
    MallocParts(w, size, v, t);
    ReuseKeeps(w, Candidate(w, size));
    PlaceKeepsSource(v, t, size);
  }

  lemma FreeEnds(w: World, ptr: int)
    ensures Free(w, ptr).src.start == w.src.start && Free(w, ptr).src.end == w.src.end
  {
    var (v, l) := Melt(w, ptr - HEADER);
    MeltKeepsSource(w, ptr - HEADER);
    AbsorbKeepsSource(v, l);
    ShelveEnds(Absorb(v, l), l);
  }

  lemma StepEnds(w: World, c: Call)
    ensures Step(w, c).src.start == w.src.start && Step(w, c).src.end == w.src.end
  {
    match c
    case DoMalloc(size) => MallocEnds(w, size);
    case DoFree(ptr) => FreeEnds(w, ptr);
  }

  lemma {:induction false} RunEnds(w: World, calls: seq<Call>)
    ensures Run(w, calls).src.start == w.src.start && Run(w, calls).src.end == w.src.end
    decreases calls
  {
    if calls != [] {
      StepEnds(w, calls[0]);
      RunEnds(Step(w, calls[0]), calls[1..]);
    }
  }

  // ----- the page source only moves up -----

  /** From `w` to `v` the cursor has not gone back, and every grant made before is still on record. */
  ghost predicate MovesUp(w: World, v: World) {
    w.src.granted <= v.src.granted && w.src.cur <= v.src.cur
  }

  lemma PlaceMovesUp(w: World, v: World, t: int, size: int)
    requires MovesUp(w, v)
    ensures MovesUp(w, Place(v, t, size))
  {
    PlaceKeepsSource(v, t, size);
  }

  lemma ObtainMovesUp(w: World, size: int)
    requires Inv(w) && Servable(w, size)
    ensures MovesUp(w, Obtain(w, size).0)
  {
    var t := Candidate(w, size);
    CandidateExact(w, size);
    ObtainParts(w, size, t);
    if t != NULL {
      ReuseKeeps(w, t);
    } else if Allows(w.src, PagesFor(size)) {
      GrantExact(w.src, size);
      NewTagIsGrown(w, size);
    }
  }

  lemma FreeKeepsGrants(w: World, ptr: int)
    ensures Free(w, ptr).src.granted == w.src.granted && Free(w, ptr).src.cur == w.src.cur
  {
    var t := ptr - HEADER;
    if ptr == NULL || At(w.tags, t).magic != MAGIC {
      FreeOfNothing(w, ptr);
    } else {
      var (v, l) := Melt(w, t);
      MeltKeepsSource(w, t);
      AbsorbKeepsSource(v, l);
      ShelveKeepsGrants(Absorb(v, l), l);
      FreeParts(w, t);
    }
  }

  lemma ShelveKeepsGrants(w: World, t: int)
    ensures Shelve(w, t).src.granted == w.src.granted && Shelve(w, t).src.cur == w.src.cur
  {
    var i := ClassOf(w, t);
    InsertTagKeeps(w, t, i);
    InsertTagKeeps(Recount(w, i, 1), t, i);
  }

  lemma StepMovesUp(w: World, c: Call)
    requires Inv(w) && Legal(w, c)
    ensures MovesUp(w, Step(w, c))
  {
    StepIs(w, c);
    match c
    case DoMalloc(size) =>
      var (v, t) := Obtain(w, size);
      ObtainMovesUp(w, size);
      MallocParts(w, size, v, t);
      PlaceMovesUp(w, v, t, size);
    case DoFree(ptr) =>
      FreeKeepsGrants(w, ptr);
  }

  /** Over every run the cursor never goes back, and no grant is ever forgotten. */
  lemma {:induction false} RunMovesUp(w: World, calls: seq<Call>)
    requires Inv(w) && LegalRun(w, calls)
    ensures MovesUp(w, Run(w, calls))
    decreases calls
  {
    if calls != [] {
      StepRefines(w, calls[0]);
      StepMovesUp(w, calls[0]);
      RunMovesUp(Step(w, calls[0]), calls[1..]);
    }
  }

  /** A run is its first k calls, and then the others. */
  lemma {:induction false} RunSplits(w: World, calls: seq<Call>, k: nat)
    requires LegalRun(w, calls) && k <= |calls|
    ensures LegalRun(w, calls[..k]) && LegalRun(Run(w, calls[..k]), calls[k..])
    ensures Run(w, calls) == Run(Run(w, calls[..k]), calls[k..])
    decreases k
  {
    if k == 0 {
      assert calls[k..] == calls;
    } else {
      RunSplits(Step(w, calls[0]), calls[1..], k - 1);
      assert calls[..k][1..] == calls[1..][..k - 1];
      assert calls[k..] == calls[1..][k - 1..];
    }
  }

  /** From power-up with the 4 MiB heap, whatever is freed: every grant made on the way is on
      record at the end, the grants follow each other without a gap from the start of the heap to
      the cursor, they are at most 63 chunks of 1023 pages in all, and the tags in use account for
      every page not returned. */
  lemma HeapOverARun(start: int, calls: seq<Call>, k: nat)
    requires 0 < start && start + 1024 * PAGE < TWO31 && k <= |calls|
    requires LegalRun(Initial(start, start + 1024 * PAGE), calls)
    ensures var w0 := Initial(start, start + 1024 * PAGE);
      var w := Run(w0, calls);
      && MovesUp(Run(w0, calls[..k]), w)
      && Gapless(w.src) && w.src.start == start
      && PageSum(w.src.granted) <= 1023 && |w.src.granted| <= 63
      && Sum(RealSizes(w)) == PAGE * (PageSum(w.src.granted) - PageSum(w.src.returned))
  {
    var w0 := Initial(start, start + 1024 * PAGE);
    InitialInv(start, start + 1024 * PAGE);
    RunRefines(w0, calls);
    RunSplits(w0, calls, k);
    RunRefines(w0, calls[..k]);
    RunMovesUp(Run(w0, calls[..k]), calls[k..]);
    RunEnds(w0, calls);
    RunWideBound(Run(w0, calls).src);
    Conservation(Run(w0, calls));
  }
}
