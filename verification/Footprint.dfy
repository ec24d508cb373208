/** Which headers a call writes, and that none of them meets a live payload. */
module Footprint {
  import opened Machine
  import opened World
  import opened TagOps
  import opened ListLemmas
  import opened ChainLemmas
  import opened Calls
  import opened FreeLemmas
  import opened MallocLemmas
  import opened Theorems

  /** Going from `v` to `w`, only headers at addresses in `s` are written. */
  ghost predicate WritesIn(v: World, w: World, s: set<int>) {
    forall a | a in w.tags && a !in s :: a in v.tags && v.tags[a] == w.tags[a]
  }

  lemma WritesChain(u: World, v: World, w: World, s: set<int>)
    requires WritesIn(u, v, s) && WritesIn(v, w, s)
    ensures WritesIn(u, w, s)
  {
  }

  lemma RemoveTagWrites(w: World, t: int)
    requires Lists(w) && Present(w) && t in w.owner && IsFree(w, t)
    ensures WritesIn(w, RemoveTag(w, t), w.owner.Keys)
  {
    LinksMutual(w, t);
    RemoveTagEffect(w, t);
  }

  lemma InsertTagWrites(w: World, t: int, i: int)
    requires Lists(w) && Present(w) && t in w.owner && At(w.tags, t).index == -1 && MIN_EXP <= i < MAX_EXP
    ensures WritesIn(w, InsertTag(w, t, i), w.owner.Keys) && InsertTag(w, t, i).owner == w.owner
  {
    InsertTagEffect(w, t, i);
  }

  lemma MeltLeftWrites(w: World, t: int)
    requires Tiling(w) && t in w.owner && At(w.tags, t).splitLeft != NULL
    ensures WritesIn(w, MeltLeft(w, t), w.owner.Keys)
  {
    Neighbours(w, t);
    MeltLeftEffect(w, t);
  }

  lemma MeltStepWrites(w: World, t: int)
    requires Tiling(w) && Lists(w) && t in w.owner && At(w.tags, t).index == -1 && LeftIsFree(w, t)
    ensures WritesIn(w, MeltStep(w, t), w.owner.Keys)
    ensures MeltStep(w, t).owner.Keys <= w.owner.Keys
  {
    var l, m := At(w.tags, t).splitLeft, MeltLeft(w, t);
    Neighbours(w, t);
    MeltLeftEffect(w, t);
    MeltLeftWrites(w, t);
    ListsFrame(w, m);
    RemoveTagWrites(m, l);
    RemoveTagEffect(m, l);
  }

  lemma AbsorbWrites(w: World, t: int)
    requires Tiling(w) && Lists(w) && t in w.owner && At(w.tags, t).index == -1 && RightIsFree(w, t)
    ensures WritesIn(w, AbsorbRight(w, t), w.owner.Keys)
    ensures AbsorbRight(w, t).owner.Keys <= w.owner.Keys
  {
    var r := At(w.tags, t).splitRight;
    var m := RemoveTag(w, r);
    Neighbours(w, t);
    RemoveTagWrites(w, r);
    RemoveTagEffect(w, r);
    TilingFrame(w, m);
    MeltLeftWrites(m, r);
    assert AbsorbRight(w, t) == MeltLeft(m, r);
  }

  lemma ShelveWrites(w: World, t: int)
    requires Working(w, t)
    ensures WritesIn(w, Shelve(w, t), w.owner.Keys)
    ensures Shelve(w, t).owner.Keys <= w.owner.Keys
  {
    ClassInRange(w, t);
    InsertTagWrites(w, t, ClassOf(w, t));
    var v := Recount(w, ClassOf(w, t), 1);
    SameButCounts(w, v.complete);
    InsertTagWrites(v, t, ClassOf(w, t));
  }

  /** free writes only headers that were in use when it was called. */
  lemma FreeWrites(w: World, ptr: int)
    requires Inv(w) && IsLive(w, ptr - HEADER)
    ensures WritesIn(w, Free(w, ptr), w.owner.Keys)
  {
    var t := ptr - HEADER;
    LiveIsWorking(w, t);
    BelowCursor(w, t);
    MeltOk(w, t);
    var (v, l) := Melt(w, t);
    if LeftIsFree(w, t) {
      MeltStepWrites(w, t);
    }
    AbsorbOk(v, l);
    if RightIsFree(v, l) {
      AbsorbWrites(v, l);
    }
    var u := Absorb(v, l);
    ShelveWrites(u, l);
    FreeParts(w, t);
  }

  lemma PlaceWrites(w: World, t: int, size: int)
    requires Working(w, t) && Coalesced(w, t) && 0 <= size && size + HEADER <= At(w.tags, t).realSize
    ensures WritesIn(w, Place(w, t, size), Place(w, t, size).owner.Keys)
    ensures w.owner.Keys <= Place(w, t, size).owner.Keys
  {
    var v := PutSize(w, t, size);
    SetSizeOk(w, t, size);
    if Splits(v, t) {
      RemainderExact(v, t);
      SplitWrites(v, t);
    }
  }

  lemma CutWrites(w: World, t: int)
    requires Tiling(w) && Cuttable(w, t)
    ensures WritesIn(w, CutTag(w, t), CutTag(w, t).owner.Keys)
    ensures w.owner.Keys <= CutTag(w, t).owner.Keys
  {
    CutEffect(w, t);
    Neighbours(w, t);
  }

  lemma SplitWrites(w: World, t: int)
    requires Working(w, t) && Coalesced(w, t) && Cuttable(w, t)
    ensures WritesIn(w, SplitTag(w, t), SplitTag(w, t).owner.Keys)
    ensures w.owner.Keys <= SplitTag(w, t).owner.Keys
  {
    var v, n := CutTag(w, t), CutPoint(w, t);
    SplitIs(w, t, v, n);
    CutOk(w, t);
    CutWrites(w, t);
    ClassInRange(v, n);
    InsertTagWrites(v, n, ClassOf(v, n));
    WritesChain(w, v, SplitTag(w, t), v.owner.Keys);
  }

  lemma ObtainWrites(w: World, size: int)
    requires Inv(w) && Servable(w, size)
    ensures var (v, t) := Obtain(w, size); WritesIn(w, v, v.owner.Keys) && w.owner.Keys <= v.owner.Keys
  {
    var t := Candidate(w, size);
    CandidateExact(w, size);
    if t != NULL {
      CandidateFits(w, size);
      RemoveTagWrites(w, t);
      ReuseKeeps(w, t);
    }
  }

  /** malloc writes only headers that are in use when it returns. */
  lemma MallocWrites(w: World, size: int)
    requires Inv(w) && Servable(w, size)
    ensures var v := Malloc(w, size).0; WritesIn(w, v, v.owner.Keys)
  {
    var (v, t) := Obtain(w, size);
    ObtainWrites(w, size);
    MallocParts(w, size, v, t);
    if t != NULL {
      ObtainOk(w, size);
      PlaceWrites(v, t, size);
    }
  }

  /** A header written by malloc meets no payload that was live before, and none that is live after. */
  lemma MallocSparesPayloads(w: World, size: int, a: int, p: int)
    requires Inv(w) && Servable(w, size)
    requires var v := Malloc(w, size).0;
      p in Live(v) && a in v.tags && !(a in w.tags && w.tags[a] == v.tags[a])
    ensures var v := Malloc(w, size).0; Apart(p + HEADER, Live(v)[p], a, HEADER)
    ensures p in Live(w) ==> Live(Malloc(w, size).0)[p] == Live(w)[p]
  {
    MallocWrites(w, size);
    MallocFailsExactly(w, size);
    MallocKeepsInv(w, size);
    PayloadIsPrivate(Malloc(w, size).0, p, a);
  }

  /** A header written by free meets no live payload, not even the one being freed. */
  lemma FreeSparesPayloads(w: World, ptr: int, a: int, p: int)
    requires Inv(w) && IsLive(w, ptr - HEADER) && p in Live(w)
    requires var v := Free(w, ptr); a in v.tags && !(a in w.tags && w.tags[a] == v.tags[a])
    ensures Apart(p + HEADER, Live(w)[p], a, HEADER)
  {
    FreeWrites(w, ptr);
    PayloadIsPrivate(w, p, a);
  }
}
