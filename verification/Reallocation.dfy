/** realloc: a malloc, a copy, and a free. */
module Reallocation {
  import opened Machine
  import opened PageSource
  import opened World
  import opened TagOps
  import opened Calls
  import opened ListLemmas
  import opened ChainLemmas
  import opened FreeLemmas
  import opened MallocLemmas
  import opened Overcommit
  import opened Theorems
  import opened Runs

  /** The bytes realloc copies: the old block's, or as many as the new one has room for. */
  ghost function Kept(w: World, ptr: int, size: int): int {
    Min(At(w.tags, ptr - HEADER).size, size)
  }

  lemma AddsKeeps(w: World, v: World, block: int, size: int, a: int)
    requires Adds(w, v, block, size) && NULL !in w.owner && IsLive(w, a)
    ensures IsLive(v, a) && At(v.tags, a).size == At(w.tags, a).size && a != block
    ensures IsLive(v, block) && At(v.tags, block).size == size
  {
    assert a in Live(w) && Live(w)[a] == At(w.tags, a).size;
    assert a in Live(v) && block in Live(v);
  }

  /** `n` bytes fit in both blocks, and the two stretches do not meet. */
  ghost predicate RoomToMove(v: World, p: int, ptr: int, n: int) {
    && 0 <= p && 0 < ptr && 0 <= n
    && p + n <= v.src.end && ptr + n <= v.src.end
    && (p + n <= ptr || ptr + n <= p)
  }

  lemma InsideMemory(v: World, a: int)
    requires Inv(v) && a in Live(v)
    ensures 0 < a && 0 <= Live(v)[a] && a + HEADER + Live(v)[a] <= v.src.end
  {
    PayloadIsPrivate(v, a, a);
    BelowCursor(v, a);
    assert TagTiles(v, a) && WellSized(At(v.tags, a));
    assert Grant(v.owner[a], v.src.held[v.owner[a]]) in v.src.granted;
  }

  lemma BlocksApart(v: World, a: int, b: int, n: int)
    requires Inv(v) && IsLive(v, a) && IsLive(v, b) && a != b
    requires 0 <= n <= At(v.tags, a).size && n <= At(v.tags, b).size
    ensures RoomToMove(v, a + HEADER, b + HEADER, n)
  {
    BelowCursor(v, a);
    BelowCursor(v, b);
    assert a in Live(v) && b in Live(v);
    InsideMemory(v, a);
    InsideMemory(v, b);
    PayloadIsPrivate(v, a, b);
  }

  lemma BlockMoves(w: World, v: World, p: int, ptr: int, size: int)
    requires Inv(w) && IsLive(w, ptr - HEADER) && 0 <= size && Serves(w, size, v, p) && p != NULL
    ensures Inv(v) && IsLive(v, ptr - HEADER) && RoomToMove(v, p, ptr, Kept(w, ptr, size))
  {
    BelowCursor(w, ptr - HEADER);
    assert WellSized(At(w.tags, ptr - HEADER));
    AddsKeeps(w, v, p - HEADER, size, ptr - HEADER);
    BlocksApart(v, p - HEADER, ptr - HEADER, Kept(w, ptr, size));
  }

  // ----- what the copy does to the headers -----

  /** `v` is `w`, but that headers not in use, and those that begin below `n`, may read anything. */
  ghost predicate Overwritten(w: World, v: World, n: int) {
    && v == w.(tags := v.tags) && v.tags.Keys == w.tags.Keys
    && (forall a | a in w.owner && n <= a :: At(v.tags, a) == At(w.tags, a))
  }

  lemma SameHeaders(w: World, v: World, n: int)
    requires Inv(w) && Overwritten(w, v, n) && forall a | a in w.owner :: n <= a
    ensures Inv(v) && Live(v) == Live(w)
  {
    TilingFrame(w, v);
    ListsFrame(w, v);
    forall a | a in v.owner
      ensures NotBothFree(v, a, NULL)
    {
      Neighbours(w, a);
      assert NotBothFree(w, a, NULL);
    }
    CountsFrame(w, v);
  }

  /** One changed byte in the magic word of a header in use. */
  lemma BadMagic(w: World, a: int, n: int) returns (v: World)
    requires Inv(w) && a in w.owner && a < n
    ensures Overwritten(w, v, n) && !Inv(v) && At(v.tags, a) == At(w.tags, a).(magic := MAGIC + 1)
    ensures forall b | b != a :: At(v.tags, b) == At(w.tags, b)
  {
    v := w.(tags := w.tags[a := w.tags[a].(magic := MAGIC + 1)]);
    assert a in v.tags && v.owner[a] in v.src.held ==> !TagTiles(v, a);
  }

  /** Writing any data over the first `n` bytes of memory leaves the allocator in order exactly
      when it meets no header in use, that is, when `n` is at most the lowest address of one. */
  lemma OrderAfterCopyExactly(w: World, n: int)
    requires Inv(w) && 0 <= n
    ensures (forall v | Overwritten(w, v, n) :: Inv(v)) <==> forall a | a in w.owner :: n <= a
    ensures (forall a | a in w.owner :: Apart(NULL, n, a, HEADER)) <==> forall a | a in w.owner :: n <= a
  {
    forall a | a in w.owner
      ensures 0 < a
    {
      BelowCursor(w, a);
    }
    if a :| a in w.owner && a < n {
      var v := BadMagic(w, a, n);
      assert !Apart(NULL, n, a, HEADER);
    } else {
      forall v | Overwritten(w, v, n)
        ensures Inv(v)
      {
        SameHeaders(w, v, n);
      }
    }
  }

  /** A state that the copy of realloc can leave, whatever the old block holds. With a new block the
      bytes go there, among no headers in use; without one they go to NULL. */
  ghost predicate AfterCopy(w: World, ptr: int, size: int, c: World) {
    var (v, p) := Malloc(w, size);
    Overwritten(v, c, if p == NULL then Kept(w, ptr, size) else 0)
  }

  /** There is a new block, or the copy to NULL ends below every header in use. */
  ghost predicate CopyStaysOut(w: World, ptr: int, size: int) {
    Malloc(w, size).1 == NULL ==> forall a | a in w.owner :: Kept(w, ptr, size) <= a
  }

  lemma AllAboveNull(w: World)
    requires Inv(w)
    ensures forall a | a in w.owner :: 0 < a
  {
    forall a | a in w.owner
      ensures 0 < a
    {
      BelowCursor(w, a);
    }
  }

  lemma KeptIsInside(w: World, ptr: int, size: int)
    requires Inv(w) && IsLive(w, ptr - HEADER) && 0 <= size
    ensures 0 <= Kept(w, ptr, size) <= At(w.tags, ptr - HEADER).size && Kept(w, ptr, size) <= size
  {
    BelowCursor(w, ptr - HEADER);
    assert WellSized(At(w.tags, ptr - HEADER));
  }

  /** realloc leaves the allocator in order after its copy, whatever the old block holds, exactly
      when it got a new block or its copy ends below every header in use. */
  lemma ReallocSafeExactly(w: World, ptr: int, size: int)
    requires Inv(w) && IsLive(w, ptr - HEADER) && Servable(w, size)
    ensures (forall c | AfterCopy(w, ptr, size, c) :: Inv(c)) <==> CopyStaysOut(w, ptr, size)
  {
    MallocServes(w, size);
    KeptIsInside(w, ptr, size);
    var v, p := Malloc(w, size).0, Malloc(w, size).1;
    AllAboveNull(v);
    OrderAfterCopyExactly(v, if p == NULL then Kept(w, ptr, size) else 0);
  }

  /** free finds the block's own magic word after the copy, whatever the block holds, exactly when
      the copy did not go to NULL or ends below the block's header. */
  lemma OwnHeaderExactly(w: World, ptr: int, size: int)
    requires Inv(w) && IsLive(w, ptr - HEADER) && Servable(w, size)
    ensures (forall c | AfterCopy(w, ptr, size, c) :: At(c.tags, ptr - HEADER).magic == MAGIC)
       <==> (Malloc(w, size).1 == NULL ==> Kept(w, ptr, size) <= ptr - HEADER)
  {
    MallocServes(w, size);
    var t, v, p := ptr - HEADER, Malloc(w, size).0, Malloc(w, size).1;
    BelowCursor(w, t);
    OldBlockStays(w, v, p, size, t);
    LiveIsWorking(v, t);
    if p == NULL && t < Kept(w, ptr, size) {
      var c := BadMagic(v, t, Kept(w, ptr, size));
      assert AfterCopy(w, ptr, size, c);
    }
  }

  /** Then the block can stay live for good: free leaves it alone, in a state out of order. */
  lemma BlockMayStay(w: World, ptr: int, size: int) returns (c: World)
    requires Inv(w) && IsLive(w, ptr - HEADER) && Servable(w, size)
    requires Malloc(w, size).1 == NULL && ptr - HEADER < Kept(w, ptr, size)
    ensures AfterCopy(w, ptr, size, c) && Free(c, ptr) == c && !Inv(c) && IsLive(c, ptr - HEADER)
  {
    MallocServes(w, size);
    c := BadMagic(w, ptr - HEADER, Kept(w, ptr, size));
    FreeOfNothing(c, ptr);
  }

  // ----- realloc as a whole -----

  lemma OldBlockStays(w: World, v: World, p: int, size: int, t: int)
    requires Inv(w) && IsLive(w, t) && Serves(w, size, v, p)
    ensures Inv(v) && IsLive(v, t) && At(v.tags, t).size == At(w.tags, t).size
  {
    BelowCursor(w, t);
    if p != NULL {
      AddsKeeps(w, v, p - HEADER, size, t);
    }
  }

  /** After the inner malloc the old block is still live, apart from where its bytes will go. */
  lemma ReallocInBetween(w: World, ptr: int, size: int)
    requires Inv(w) && IsLive(w, ptr - HEADER) && Servable(w, size) && CopyStaysOut(w, ptr, size)
    ensures Inv(Malloc(w, size).0) && IsLive(Malloc(w, size).0, ptr - HEADER)
    ensures RoomToMove(Malloc(w, size).0, Malloc(w, size).1, ptr, Kept(w, ptr, size))
  {
    MallocServes(w, size);
    if Malloc(w, size).1 != NULL {
      BlockMoves(w, Malloc(w, size).0, Malloc(w, size).1, ptr, size);
    } else {
      KeptIsInside(w, ptr, size);
      CopyToNull(w, ptr, Kept(w, ptr, size));
    }
  }

  lemma CopyToNull(w: World, ptr: int, n: int)
    requires Inv(w) && IsLive(w, ptr - HEADER) && 0 <= n <= At(w.tags, ptr - HEADER).size && n <= ptr - HEADER
    ensures RoomToMove(w, NULL, ptr, n)
  {
    BelowCursor(w, ptr - HEADER);
    assert ptr - HEADER in Live(w);
    InsideMemory(w, ptr - HEADER);
  }

  /** What realloc does to the live blocks: the old one is exchanged for one of the new size, and
      is gone even when there is no new one. */
  ghost predicate Exchanges(w: World, ptr: int, size: int, u: World, p: int) {
    && Inv(u)
    && (p == NULL <==> NoneFits(w, size) && w.src.cur + Need(size) >= w.src.end)
    && (p == NULL ==> Live(u) == Live(w) - {ptr - HEADER})
    && (p != NULL ==> !IsLive(w, p - HEADER) && Live(u) == Live(w)[p - HEADER := size] - {ptr - HEADER})
  }

  lemma FreeAfterCopy(w: World, ptr: int, size: int, v: World, p: int, c: World)
    requires Inv(w) && IsLive(w, ptr - HEADER) && Serves(w, size, v, p) && Inv(c) && Live(c) == Live(v)
    ensures Exchanges(w, ptr, size, Free(c, ptr), p)
  {
    OldBlockStays(w, v, p, size, ptr - HEADER);
    BelowCursor(v, ptr - HEADER);
    assert ptr - HEADER in Live(v);
    assert ptr - HEADER in Live(c);
    FreeKeepsInv(c, ptr);
  }

  /** realloc, with whatever its copy has made of headers that are not in use or lie in its way:
      it exchanges the old block for a new one. */
  lemma ReallocRefines(w: World, ptr: int, size: int, c: World)
    requires Inv(w) && IsLive(w, ptr - HEADER) && ptr != NULL && size != 0
    requires Servable(w, size) && CopyStaysOut(w, ptr, size) && AfterCopy(w, ptr, size, c)
    ensures Exchanges(w, ptr, size, Free(c, ptr), Malloc(w, size).1)
  {
    MallocServes(w, size);
    var v, p := Malloc(w, size).0, Malloc(w, size).1;
    AllAboveNull(v);
    SameHeaders(v, c, if p == NULL then Kept(w, ptr, size) else 0);
    FreeAfterCopy(w, ptr, size, v, p, c);
  }

  // ----- realloc in a run -----

  /** The calls of a run that realloc stands for. */
  function ReallocCalls(ptr: int, size: int): seq<Call> {
    if size == 0 then [DoFree(ptr)]
    else if ptr == NULL then [DoMalloc(size)]
    else [DoMalloc(size), DoFree(ptr)]
  }

  /** The headers after realloc are those after these calls, which a caller may make; so what holds
      of every run holds of every run with reallocs in it. */
  lemma ReallocIsARun(w: World, ptr: int, size: int)
    requires Inv(w) && (ptr == NULL || IsLive(w, ptr - HEADER)) && (size != 0 ==> Servable(w, size))
    ensures LegalRun(w, ReallocCalls(ptr, size))
    ensures Run(w, ReallocCalls(ptr, size)) == Realloc(w, ptr, size).0
    ensures Realloc(w, ptr, size).1 == Results(w, ReallocCalls(ptr, size))[0]
  {
    ReallocCases(w, ptr, size);
    if size == 0 {
      RunOfOne(w, DoFree(ptr));
    } else if ptr == NULL {
      RunOfOne(w, DoMalloc(size));
    } else {
      var v, p := Malloc(w, size).0, Malloc(w, size).1;
      MallocServes(w, size);
      OldBlockStays(w, v, p, size, ptr - HEADER);
      ReallocParts(w, ptr, size, v, p);
      RunOfTwo(w, DoMalloc(size), DoFree(ptr));
    }
  }

  lemma RunOfOne(w: World, c: Call)
    requires Legal(w, c)
    ensures LegalRun(w, [c]) && Run(w, [c]) == Step(w, c) && Results(w, [c]) == [Result(w, c)]
  {
    assert [c][1..] == [];
  }

  lemma RunOfTwo(w: World, c: Call, d: Call)
    requires Legal(w, c) && Legal(Step(w, c), d)
    ensures LegalRun(w, [c, d]) && Run(w, [c, d]) == Step(Step(w, c), d)
    ensures Results(w, [c, d]) == [Result(w, c), Result(Step(w, c), d)]
  {
    assert [c, d][1..] == [d];
    RunOfOne(Step(w, c), d);
  }

  // ----- the failing call that overwrites a header -----

  const START := 0x10_0000
  const END := 0x50_0000
  const FIRST := 0x18_0000
  const SECOND := 0x30_0000

  /** 4 MiB at 1 MiB: after a malloc of 1.5 MiB, a realloc of that block to 3 MiB fails, and its
      copy of 1.5 MiB to NULL runs over the block's own header at 1 MiB. */
  lemma TwoCalls()
    ensures var w := Malloc(Initial(START, END), FIRST).0;
      && Legal(Initial(START, END), DoMalloc(FIRST)) && Malloc(Initial(START, END), FIRST).1 == START + HEADER
      && Inv(w) && IsLive(w, START) && Servable(w, SECOND)
      && Malloc(w, SECOND).1 == NULL && Kept(w, START + HEADER, SECOND) == FIRST > START
      && !CopyStaysOut(w, START + HEADER, SECOND)
  {
    var w0 := Initial(START, END);
    InitialInv(START, END);
    SmallIsSafe(w0.src, FIRST);
    FirstCall(w0);
    MallocServes(w0, FIRST);
    var w := Malloc(w0, FIRST).0;
    assert START in Live(w);
    SmallIsSafe(w.src, SECOND);
    NoRoomForSecond(w);
  }

  lemma FirstCall(w: World)
    requires w == Initial(START, END)
    ensures Malloc(w, FIRST).1 == START + HEADER
    ensures var v := Malloc(w, FIRST).0; v.src.cur == START + 0x18_1000 && v.src.end == END && v.src.start == START
  {
    assert Need(FIRST) == 0x18_1000;
    NewTagIsGrown(w, FIRST);
    TakeIsGrown(w.src, PagesFor(FIRST));
    ObtainParts(w, FIRST, NULL);
    MallocParts(w, FIRST, NewTag(w, FIRST), START);
    PlaceKeepsSource(NewTag(w, FIRST), START, FIRST);
  }

  lemma NoRoomForSecond(w: World)
    requires Inv(w) && Servable(w, SECOND)
    requires w.src.cur == START + 0x18_1000 && w.src.end == END && w.src.start == START
    ensures Malloc(w, SECOND).1 == NULL
  {
    CandidateExact(w, SECOND);
    if Candidate(w, SECOND) != NULL {
      CandidateFits(w, SECOND);
      BelowCursor(w, Candidate(w, SECOND));
    }
    assert Need(SECOND) == 0x30_1000;
    MallocFailsExactly(w, SECOND);
  }
}
