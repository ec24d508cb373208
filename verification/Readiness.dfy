/** What the code over records relies on at each of its steps, in the terms of the state. */
module Readiness {
  import opened Machine
  import opened PageSource
  import opened World
  import opened ListLemmas
  import opened ChainLemmas
  import opened FreeLemmas
  import opened MallocLemmas
  import opened Memory
  import opened Runs
  import opened Reallocation
  import opened Outcomes
  import Ops = TagOps
  import Spec = Calls

  /** What remove_tag relies on, in the terms of the state. */
  ghost predicate OffToItself(w: World, t: int) {
    var g := At(w.tags, t);
    && 0 <= g.index < MAX_EXP && g.next != t && g.prev != t
    && (g.next != NULL ==> g.next != g.prev)
  }

  lemma ListedApart(w: World, t: int)
    requires Lists(w) && Present(w) && t in w.owner && IsFree(w, t)
    ensures OffToItself(w, t)
  {
    LinksMutual(w, t);
  }

  /** No tag in use, and no list head, points at `n`. */
  ghost predicate NoLinkTo(w: World, n: int) {
    && (forall a | a in w.owner ::
          var g := At(w.tags, a);
          g.splitLeft != n && g.splitRight != n && g.next != n && g.prev != n)
    && (forall i | 0 <= i < |w.heads| :: w.heads[i] != n)
  }

  lemma LinksStayInUse(w: World, n: int)
    requires Tiling(w) && Lists(w) && n !in w.owner && n != NULL
    ensures NoLinkTo(w, n)
  {
    forall a | a in w.owner
      ensures var g := At(w.tags, a);
        g.splitLeft != n && g.splitRight != n && g.next != n && g.prev != n
    {
      Neighbours(w, a);
      assert Filed(w, a);
      if IsFree(w, a) {
        LinksMutual(w, a);
      }
    }
    forall i | 0 <= i < MAX_EXP
      ensures w.heads[i] != n
    {
      assert IsList(w, i);
      assert w.lists[i] != [] ==> Node(w, i, 0);
    }
  }

  lemma CursorIsNew(w: World)
    requires Tiling(w) && Lists(w)
    ensures w.src.cur > 0 && w.src.cur !in w.owner && NoLinkTo(w, w.src.cur)
  {
    if w.src.cur in w.owner {
      BelowCursor(w, w.src.cur);
    }
    LinksStayInUse(w, w.src.cur);
  }

  lemma SplitParts(w: World, t: int, v: World, n: int)
    requires v == Ops.CutTag(w, t) && n == Ops.Behind(t, At(w.tags, t).size) && n != NULL && NoLinkTo(w, n)
    ensures var i := Ops.IndexFor(v, n, -1);
      Ops.HeadOf(v, i) != n && Ops.SplitTag(w, t) == Ops.InsertTag(v, n, i)
  {
    Ops.CutKeepsHeads(w, t);
  }

  /** What split_tag relies on: the new header lies where no tag is and none points. */
  lemma SplitReady(w: World, t: int)
    requires Tiling(w) && Lists(w) && Cuttable(w, t)
    ensures CutPoint(w, t) != NULL && CutPoint(w, t) !in w.owner && NoLinkTo(w, CutPoint(w, t))
    ensures At(w.tags, t).splitRight != t
  {
    CutPointIsNew(w, t);
    LinksStayInUse(w, CutPoint(w, t));
    Neighbours(w, t);
  }

  /** What the end of malloc relies on. */
  ghost predicate Placeable(w: World, t: int, size: int) {
    SplitAllowed(Ops.PutSize(w, t, size), t, Ops.Behind(t, size))
  }

  ghost predicate SplitAllowed(v: World, t: int, n: int) {
    Spec.Splits(v, t) ==> n != NULL && n !in v.owner && NoLinkTo(v, n) && At(v.tags, t).splitRight != t
  }

  lemma SplitIsAllowed(v: World, t: int, n: int)
    requires n == Ops.Behind(t, At(v.tags, t).size)
    requires 0 <= At(v.tags, t).size && At(v.tags, t).size + HEADER <= At(v.tags, t).realSize
    ensures Working(v, t) ==> SplitAllowed(v, t, n)
  {
    if Working(v, t) && Spec.Splits(v, t) {
      RemainderExact(v, t);
      SplitReady(v, t);
    }
  }

  lemma PlaceReady(w: World, t: int, size: int)
    requires Working(w, t) && Coalesced(w, t) && 0 <= size && size + HEADER <= At(w.tags, t).realSize
    ensures Placeable(w, t, size)
  {
    var v := Ops.PutSize(w, t, size);
    SetSizeWorks(w, t, size);
    SplitIsAllowed(v, t, Ops.Behind(t, size));
  }

  /** `a` is the first tag of `l` whose room, in 32 bits, is that of the request and a header; NULL
      when there is none. */
  ghost predicate FoundFirst(w: World, l: seq<int>, size: int, a: int) {
    if a == NULL
    then forall x | x in l :: (At(w.tags, x).realSize - 32) % 0x1_0000_0000 < (size + 32) % 0x1_0000_0000
    else exists k | 0 <= k < |l| && l[k] == a ::
        && (At(w.tags, a).realSize - 32) % 0x1_0000_0000 >= (size + 32) % 0x1_0000_0000
        && forall j | 0 <= j < k :: (At(w.tags, l[j]).realSize - 32) % 0x1_0000_0000 < (size + 32) % 0x1_0000_0000
  }

  /** What the first part of malloc relies on. */
  ghost predicate ObtainReady(w: World, size: int) {
    var i, t := Class(size), Spec.Candidate(w, size);
    && |w.lists| == MAX_EXP == |w.heads| && MIN_EXP <= i < MAX_EXP && IsList(w, i)
    && (t == NULL ==> w.src.cur != NULL && w.src.cur !in w.owner && NoLinkTo(w, w.src.cur))
    && (t != NULL ==> t in w.owner && OffToItself(w, t) && At(w.tags, t).index == i)
  }

  /** What malloc relies on before it starts. */
  ghost predicate MallocReady(w: World, size: int) {
    var (v, u) := Spec.Obtain(w, size);
    ObtainReady(w, size) && (u != NULL ==> Placeable(v, u, size))
  }

  lemma MallocIsReady(w: World, size: int)
    requires Inv(w) && Servable(w, size)
    ensures MallocReady(w, size)
  {
    var t := Spec.Candidate(w, size);
    ClassRange(size);
    CandidateExact(w, size);
    if t != NULL {
      CandidateFits(w, size);
      ListedApart(w, t);
      ReuseObtained(w, size);
      PlaceReady(Spec.Reuse(w, t), t, size);
    } else {
      CursorIsNew(w);
      if Allows(w.src, Ops.PagesFor(size)) {
        NewTagObtained(w, size);
        PlaceReady(Ops.NewTag(w, size), w.src.cur, size);
      }
    }
  }

  lemma MallocWillDo(w: World, size: int)
    requires Inv(w) && Servable(w, size)
    ensures MallocReady(w, size)
    ensures Inv(Spec.Malloc(w, size).0) && Serves(w, size, Spec.Malloc(w, size).0, Spec.Malloc(w, size).1)
    ensures MallocOutcome(w, size, Spec.Malloc(w, size).0, Spec.Malloc(w, size).1)
  {
    MallocExactly(w, size);
    MallocIsReady(w, size);
    MallocKeepsInv(w, size);
    MallocServes(w, size);
  }

  /** What one turn of the melt-left loop relies on. */
  ghost predicate MeltReady(w: World, t: int) {
    var l := At(w.tags, t).splitLeft;
    && l in w.owner && l != t && OffToItself(Ops.MeltLeft(w, t), l)
    && l in Spec.MeltStep(w, t).owner
  }

  lemma MeltIsReady(w: World, t: int)
    requires Working(w, t) && Spec.LeftIsFree(w, t)
    ensures MeltReady(w, t)
  {
    var l, m := At(w.tags, t).splitLeft, Ops.MeltLeft(w, t);
    Neighbours(w, t);
    MeltLeftEffect(w, t);
    ListsFrame(w, m);
    ListedApart(m, l);
    MeltStepEffect(w, t);
  }

  /** The melt-left loop stops after its first turn, if it takes one. */
  ghost predicate MeltsOnce(w: World, t: int) {
    && (Spec.LeftIsFree(w, t) ==> MeltReady(w, t))
    && !Spec.LeftIsFree(Spec.Melt(w, t).0, Spec.Melt(w, t).1)
  }

  /** The melt-right loop stops after its first turn, if it takes one. */
  ghost predicate AbsorbsOnce(w: World, t: int) {
    var r, v := At(w.tags, t).splitRight, Spec.Absorb(w, t);
    && (Spec.RightIsFree(w, t) ==> r in w.owner && r != t && OffToItself(w, r) && t in v.owner)
    && !Spec.RightIsFree(v, t)
  }

  lemma LoopsRunOnce(w: World, t: int)
    requires Working(w, t) && CoalescedAway(w, t)
    ensures MeltsOnce(w, t)
    ensures !Spec.LeftIsFree(w, t) ==> AbsorbsOnce(w, t)
  {
    MeltOk(w, t);
    if Spec.LeftIsFree(w, t) {
      MeltIsReady(w, t);
    } else {
      AbsorbOk(w, t);
      if Spec.RightIsFree(w, t) {
        Neighbours(w, t);
        ListedApart(w, At(w.tags, t).splitRight);
      }
    }
  }

  /** What the end of free relies on. */
  ghost predicate ShelveReady(w: World, t: int) {
    MIN_EXP <= Ops.ClassOf(w, t) < MAX_EXP && Ops.HeadOf(w, Ops.ClassOf(w, t)) != t
  }

  lemma ShelveIsReady(w: World, t: int)
    requires Working(w, t)
    ensures ShelveReady(w, t)
  {
    ClassInRange(w, t);
    InsertTagEffect(w, t, Ops.ClassOf(w, t));
  }

  /** What free relies on at each of its stages. */
  ghost predicate FreeReady(w: World, t: int) {
    var (v, l) := Spec.Melt(w, t);
    MeltsOnce(w, t) && AbsorbsOnce(v, l) && ShelveReady(Spec.Absorb(v, l), l)
  }

  lemma FreeIsReady(w: World, t: int)
    requires Inv(w) && IsLive(w, t)
    ensures FreeReady(w, t)
  {
    LiveIsWorking(w, t);
    LoopsRunOnce(w, t);
    MeltOk(w, t);
    var (v, l) := Spec.Melt(w, t);
    LoopsRunOnce(v, l);
    AbsorbOk(v, l);
    ShelveIsReady(Spec.Absorb(v, l), l);
  }

  /** What free relies on for any pointer: the magic word means a block that can be freed. */
  ghost predicate FreeAllowed(w: World, ptr: int) {
    ptr != NULL && At(w.tags, ptr - HEADER).magic == MAGIC ==>
      ptr - HEADER in w.owner && FreeReady(w, ptr - HEADER)
  }

  lemma FreeIsAllowed(w: World, ptr: int)
    requires Inv(w) && MayFree(w, ptr)
    ensures FreeAllowed(w, ptr)
  {
    if ptr != NULL && At(w.tags, ptr - HEADER).magic == MAGIC {
      FreeIsReady(w, ptr - HEADER);
    }
  }

  /** free of a live block does what is said of it, and of anything else nothing. */
  ghost predicate Frees(w: World, ptr: int, v: World) {
    if ptr != 0 && IsLive(w, ptr - 32)
    then FreeOutcome(w, ptr - 32, v) && ReturnsChunk(w, ptr - 32, v)
    else v == w
  }

  lemma FreesExactly(w: World, ptr: int)
    requires Inv(w) && MayFree(w, ptr)
    ensures Frees(w, ptr, Spec.Free(w, ptr))
  {
    if ptr != NULL && IsLive(w, ptr - HEADER) {
      FreeExactly(w, ptr - HEADER);
      ReturnsExactly(w, ptr - HEADER);
    } else {
      FreeOfNothing(w, ptr);
    }
  }

  lemma FreeWillDo(w: World, ptr: int)
    requires Inv(w) && MayFree(w, ptr)
    ensures FreeAllowed(w, ptr)
    ensures Inv(Spec.Free(w, ptr)) && Live(Spec.Free(w, ptr)) == Live(w) - {ptr - HEADER}
    ensures Frees(w, ptr, Spec.Free(w, ptr))
  {
    FreesExactly(w, ptr);
    FreeIsAllowed(w, ptr);
    FreeReleases(w, ptr);
  }

  /** What the copy and the free of realloc rely on. */
  ghost predicate MoveReady(v: World, p: int, ptr: int, n: int) {
    RoomToMove(v, p, ptr, n) && FreeAllowed(v, ptr)
  }

  lemma ReallocWillDo(w: World, ptr: int, size: int)
    requires Inv(w) && size != 0 && ptr != NULL && IsLive(w, ptr - HEADER)
    requires Servable(w, size) && CopyStaysOut(w, ptr, size)
    ensures MallocReady(w, size)
    ensures var (v, p) := Spec.Malloc(w, size);
      && MoveReady(v, p, ptr, Kept(w, ptr, size))
      && Spec.Realloc(w, ptr, size) == (Spec.Free(v, ptr), p) && Inv(Spec.Free(v, ptr))
      && Exchanges(w, ptr, size, Spec.Free(v, ptr), p)
      && Kept(w, ptr, size) == (if Live(w)[ptr - HEADER] < size then Live(w)[ptr - HEADER] else size)
      && 0 <= Kept(w, ptr, size)
  {
    MallocServes(w, size);
    BelowCursor(w, ptr - HEADER);
    KeptIsInside(w, ptr, size);
    var v, p := Spec.Malloc(w, size).0, Spec.Malloc(w, size).1;
    MallocIsReady(w, size);
    ReallocInBetween(w, ptr, size);
    FreeWillDo(v, ptr);
    Spec.ReallocParts(w, ptr, size, v, p);
    FreeAfterCopy(w, ptr, size, v, p, v);
  }

  /** realloc frees for size 0, allocates for a NULL pointer, and else exchanges the block. */
  ghost predicate Reallocates(w: World, ptr: int, size: int, v: World, p: int) {
    if size == 0 then p == 0 && Live(v) == Live(w) - {ptr - 32} && Frees(w, ptr, v)
    else if ptr == 0 then Serves(w, size, v, p) && MallocOutcome(w, size, v, p)
    else Exchanges(w, ptr, size, v, p)
  }

  /** Nothing handed out yet: the list heads and counters are as the loader left them. */
  ghost predicate Untouched(w: World) {
    && w.owner.Keys == {}
    && (forall i | 0 <= i < |w.heads| :: w.heads[i] == NULL)
    && (forall i | 0 <= i < |w.complete| :: w.complete[i] == 0)
  }

  /** The `n` bytes from `src` on have been copied to `dst`; every other byte is as before. */
  ghost predicate Moved(m: seq<byte>, m': seq<byte>, dst: int, src: int, n: int) {
    && |m'| == |m|
    && (0 < n ==> 0 <= dst && 0 <= src && dst + n <= |m| && src + n <= |m|)
    && (forall x {:trigger m'[x]} | 0 <= x < |m| ::
          m'[x] == if dst <= x < dst + n then m[src + (x - dst)] else m[x])
  }

  lemma CopyIsMove(m: seq<byte>, dst: int, src: int, n: nat)
    requires 0 <= dst && 0 <= src && dst + n <= |m| && src + n <= |m|
    requires src + n <= dst || dst + n <= src
    ensures Moved(m, WordCopy(m, dst, src, n), dst, src, n)
  {
    WordCopyRefines(m, dst, src, n);
    forall x | 0 <= x < |m|
      ensures WordCopy(m, dst, src, n)[x] == if dst <= x < dst + n then m[src + (x - dst)] else m[x]
    {
      CopyBetweenApart(m, dst, src, n, x);
    }
  }

  /** The first bytes of the block of `was` bytes at `ptr`, as many as `size` has room for, are now at
      `p` as well, and every other byte is as before. */
  ghost predicate Carried(m: seq<byte>, m': seq<byte>, p: int, ptr: int, was: int, size: int) {
    && |m'| == |m|
    && (forall x | p <= x < p + was && x < p + size ::
          0 <= x < |m| && 0 <= ptr + (x - p) < |m| && m'[x] == m[ptr + (x - p)])
    && (forall x | 0 <= x < |m| && !(p <= x < p + was && x < p + size) :: m'[x] == m[x])
  }

  lemma MovedIsCarried(m: seq<byte>, m': seq<byte>, p: int, ptr: int, was: int, size: int, n: int)
    requires 0 <= n && n == if was < size then was else size
    ensures Moved(m, m', p, ptr, n) ==> Carried(m, m', p, ptr, was, size)
  {
  }
}
