/** free keeps the invariant, and takes exactly one block out of the live ones. */
module FreeLemmas {
  import opened Machine
  import opened PageSource
  import opened World
  import opened TagOps
  import opened ListLemmas
  import opened ChainLemmas
  import opened FileLemmas
  import opened Calls

  /** A state in the middle of a call: `x` is in no list, everything else is in order. */
  ghost predicate Working(w: World, x: int) {
    && Tiling(w) && Lists(w) && Sized(w, x) && Counts(w)
    && x in w.owner && At(w.tags, x).index == -1
  }

  lemma CountsFrame(w: World, v: World)
    requires Counts(w) && w.complete == v.complete
    requires forall i | 0 <= i < MAX_EXP :: Wholes(v, i) == Wholes(w, i)
    ensures Counts(v)
  {
    forall i | 0 <= i < MAX_EXP
      ensures v.complete[i] == |Wholes(v, i)| <= MAX_COMPLETE
    {
      assert Wholes(v, i) == Wholes(w, i);
    }
  }

  lemma ListedIsFree(w: World, a: int)
    requires Lists(w) && a in w.owner
    ensures IsFree(w, a) ==> MIN_EXP <= At(w.tags, a).index < MAX_EXP
    ensures !IsFree(w, a) ==> At(w.tags, a).index == -1
  {
    assert Filed(w, a);
  }

  /** Everything that follows from one merge, whichever side it came from. */
  lemma MergedWorking(w: World, v: World, l: int, t: int, x: int)
    requires Working(w, x) && (x == l || x == t) && CoalescedAway(w, x)
    requires t in w.owner && At(w.tags, t).splitLeft == l != NULL
    requires Merged(w, v, l, t) && At(v.tags, l).index == -1 && Lists(v)
    requires x == t ==> At(w.tags, l).index != -1
    requires x == l ==> At(w.tags, t).index != -1
    ensures Working(v, l) && CoalescedAway(v, l)
    ensures LiveBut(v, l) == LiveBut(w, x)
  {
    MergedTiling(w, v, l, t);
    MergedSized(w, v, l, t, x);
    MergedCoalesced(w, v, l, t, x);
    MergedLive(w, v, l, t, x);
    forall i | 0 <= i < MAX_EXP
      ensures Wholes(v, i) == Wholes(w, i)
    {
      MergedWholes(w, v, l, t, i);
    }
    CountsFrame(w, v);
  }

  lemma MeltStepEffect(w: World, t: int)
    requires Tiling(w) && Lists(w) && t in w.owner && At(w.tags, t).index == -1 && LeftIsFree(w, t)
    ensures var l := At(w.tags, t).splitLeft;
      && l in w.owner && l != NULL
      && Merged(w, MeltStep(w, t), l, t)
      && At(MeltStep(w, t).tags, l).index == -1
      && Lists(MeltStep(w, t))
  {
    var l, m := At(w.tags, t).splitLeft, MeltLeft(w, t);
    Neighbours(w, t);
    ListedIsFree(w, l);
    MeltLeftEffect(w, t);
    ListsFrame(w, m);
    RemoveTagEffect(m, l);
    RemoveTagLists(m, l);
  }

  lemma AbsorbEffect(w: World, t: int)
    requires Tiling(w) && Lists(w) && t in w.owner && At(w.tags, t).index == -1 && RightIsFree(w, t)
    ensures var r := At(w.tags, t).splitRight;
      && r in w.owner && At(w.tags, r).splitLeft == t && r != NULL
      && Merged(w, AbsorbRight(w, t), t, r)
      && At(AbsorbRight(w, t).tags, t).index == -1
      && Lists(AbsorbRight(w, t))
  {
    var r := At(w.tags, t).splitRight;
    Neighbours(w, t);
    ListedIsFree(w, r);
    RemoveTagEffect(w, r);
    RemoveTagLists(w, r);
    var m, v := RemoveTag(w, r), AbsorbRight(w, t);
    TilingFrame(w, m);
    Neighbours(m, r);
    assert v == MeltLeft(m, r);
    MeltLeftEffect(m, r);
    ListsFrame(m, v);
  }

  /** After the melt-left loop the tag's left neighbour is not free: a second turn never happens. */
  lemma MeltOk(w: World, t: int)
    requires Working(w, t) && CoalescedAway(w, t)
    ensures var (v, l) := Melt(w, t);
      && Working(v, l) && CoalescedAway(v, l) && LiveBut(v, l) == LiveBut(w, t)
      && !LeftIsFree(v, l)
  {
    if LeftIsFree(w, t) {
      var l := At(w.tags, t).splitLeft;
      MeltStepEffect(w, t);
      MergedWorking(w, MeltStep(w, t), l, t, t);
      MeltStops(w, t);
    }
  }

  lemma MeltStops(w: World, t: int)
    requires Tiling(w) && Lists(w) && t in w.owner && At(w.tags, t).index == -1 && LeftIsFree(w, t)
    requires CoalescedAway(w, t)
    ensures !LeftIsFree(MeltStep(w, t), At(w.tags, t).splitLeft)
  {
    var l := At(w.tags, t).splitLeft;
    MeltStepEffect(w, t);
    Neighbours(w, t);
    Neighbours(w, l);
    var ll := At(w.tags, l).splitLeft;
    if ll != NULL {
      assert NotBothFree(w, ll, NULL);
      Neighbours(w, ll);
    }
  }

  /** The same on the right, and the left side stays closed. */
  lemma AbsorbOk(w: World, t: int)
    requires Working(w, t) && CoalescedAway(w, t) && !LeftIsFree(w, t)
    ensures var v := Absorb(w, t);
      && Working(v, t) && CoalescedAway(v, t) && LiveBut(v, t) == LiveBut(w, t)
      && !LeftIsFree(v, t) && !RightIsFree(v, t)
  {
    if RightIsFree(w, t) {
      var r := At(w.tags, t).splitRight;
      AbsorbEffect(w, t);
      MergedWorking(w, AbsorbRight(w, t), t, r, t);
      AbsorbStops(w, t);
    }
  }

  lemma AbsorbStops(w: World, t: int)
    requires Tiling(w) && Lists(w) && t in w.owner && At(w.tags, t).index == -1 && RightIsFree(w, t)
    requires CoalescedAway(w, t)
    ensures !RightIsFree(AbsorbRight(w, t), t)
    ensures !LeftIsFree(w, t) ==> !LeftIsFree(AbsorbRight(w, t), t)
  {
    var r := At(w.tags, t).splitRight;
    AbsorbEffect(w, t);
    AbsorbedClosed(w, AbsorbRight(w, t), t, r);
  }

  /** A tag that has swallowed its free right neighbour has none further on. */
  lemma AbsorbedClosed(w: World, v: World, t: int, r: int)
    requires Tiling(w) && t in w.owner && At(w.tags, t).splitRight == r && RightIsFree(w, t)
    requires CoalescedAway(w, t) && Merged(w, v, t, r)
    ensures !RightIsFree(v, t)
    ensures !LeftIsFree(w, t) ==> !LeftIsFree(v, t)
  {
    Neighbours(w, t);
    Neighbours(w, r);
    assert NotBothFree(w, r, NULL);
  }

  /** With both neighbours in use, the tag can be counted as free. */
  lemma Closed(w: World, x: int)
    requires Tiling(w) && x in w.owner && CoalescedAway(w, x)
    requires !LeftIsFree(w, x) && !RightIsFree(w, x)
    ensures Coalesced(w, x)
  {
    Neighbours(w, x);
    forall a | a in w.owner
      ensures NotBothFree(w, a, x)
    {
      Neighbours(w, a);
      assert a != x && At(w.tags, a).splitRight != x ==> NotBothFree(w, a, NULL);
    }
  }

  lemma CountsAfterInsert(w: World, t: int, i: int, complete: seq<int>)
    requires Working(w, t) && MIN_EXP <= i < MAX_EXP
    requires Whole(At(w.tags, t)) && w.complete[i] != MAX_COMPLETE
    requires complete == w.complete[i := w.complete[i] + 1]
    ensures Counts(InsertTag(w, t, i).(complete := complete))
  {
    var v := InsertTag(w, t, i).(complete := complete);
    forall j | 0 <= j < MAX_EXP
      ensures v.complete[j] == |Wholes(v, j)| <= MAX_COMPLETE
    {
      FiledWholes(w, t, i, j);
      assert Wholes(v, j) == Wholes(InsertTag(w, t, i), j);
      assert w.complete[j] == |Wholes(w, j)|;
    }
  }

  lemma CountsAfterPlainInsert(w: World, t: int, i: int)
    requires Working(w, t) && MIN_EXP <= i < MAX_EXP && !Whole(At(w.tags, t))
    ensures Counts(InsertTag(w, t, i))
  {
    forall j | 0 <= j < MAX_EXP
      ensures Wholes(InsertTag(w, t, i), j) == Wholes(w, j)
    {
      FiledWholes(w, t, i, j);
    }
    CountsFrame(w, InsertTag(w, t, i));
  }

  /** A tag in use is always given a list by size. */
  lemma ClassInRange(w: World, t: int)
    requires Tiling(w) && t in w.owner
    ensures ClassOf(w, t) == Class(At(w.tags, t).realSize - HEADER)
    ensures MIN_EXP <= ClassOf(w, t) < MAX_EXP
  {
    BelowCursor(w, t);
    assert TagTiles(w, t);
    ClassRange(At(w.tags, t).realSize - HEADER);
  }

  lemma InsertOk(w: World, t: int, i: int)
    requires Working(w, t) && Coalesced(w, t)
    requires i == Class(At(w.tags, t).realSize - HEADER) && MIN_EXP <= i < MAX_EXP
    ensures var v := InsertTag(w, t, i);
      && Tiling(v) && Lists(v) && Sized(v, NULL) && Coalesced(v, NULL) && Live(v) == LiveBut(w, t)
  {
    assert Tiling(InsertTag(w, t, i)) by {
      InsertTagEffect(w, t, i);
      TilingFrame(w, InsertTag(w, t, i));
    }
    InsertTagLists(w, t, i);
    FiledSized(w, t, i);
    FiledCoalesced(w, t, i);
    FiledLive(w, t, i);
  }

  /** The whole-chunk branch hands back exactly what was granted: rounding up changes nothing. */
  lemma PagesBackExact(w: World, t: int)
    requires Tiling(w) && t in w.owner && Whole(At(w.tags, t))
    ensures t in w.src.held && PagesBack(At(w.tags, t).realSize) == w.src.held[t]
    ensures Grant(t, PagesBack(At(w.tags, t).realSize)) in w.src.granted
    ensures Grant(t, PagesBack(At(w.tags, t).realSize)) !in w.src.returned
  {
    WholeIsChunk(w, t);
    GiveBackOk(w.src, t);
  }

  lemma ReleaseOk(w: World, t: int)
    requires Working(w, t) && CoalescedAway(w, t) && Whole(At(w.tags, t))
    ensures var v := Release(w, t, PagesBack(At(w.tags, t).realSize)); Inv(v) && Live(v) == LiveBut(w, t)
  {
    PagesBackExact(w, t);
    WholeIsChunk(w, t);
    ReleaseTiling(w, t);
    ReleaseCoalesced(w, t);
    ReleaseRest(w, t, w.src.held[t]);
    CountsFrame(w, Release(w, t, w.src.held[t]));
  }

  lemma ShelveOk(w: World, t: int)
    requires Working(w, t) && CoalescedAway(w, t) && Coalesced(w, t)
    ensures Inv(Shelve(w, t)) && Live(Shelve(w, t)) == LiveBut(w, t)
  {
    ClassInRange(w, t);
    var i := ClassOf(w, t);
    if !Whole(At(w.tags, t)) {
      InsertOk(w, t, i);
      CountsAfterPlainInsert(w, t, i);
    } else if w.complete[i] == MAX_COMPLETE {
      ReleaseOk(w, t);
    } else {
      ShelveCounted(w, t, i);
    }
  }

  lemma ShelveCounted(w: World, t: int, i: int)
    requires Working(w, t) && Coalesced(w, t) && Whole(At(w.tags, t))
    requires i == Class(At(w.tags, t).realSize - HEADER) && MIN_EXP <= i < MAX_EXP
    requires w.complete[i] != MAX_COMPLETE
    ensures var v := InsertTag(Recount(w, i, 1), t, i); Inv(v) && Live(v) == LiveBut(w, t)
  {
    InsertOk(w, t, i);
    CountsAfterInsert(w, t, i, w.complete[i := w.complete[i] + 1]);
    SameButCounts(InsertTag(w, t, i), w.complete[i := w.complete[i] + 1]);
  }

  /** The counters matter to nothing but the count. */
  lemma SameButCounts(v: World, complete: seq<int>)
    ensures var u := v.(complete := complete);
      && (Tiling(v) ==> Tiling(u)) && (Lists(v) ==> Lists(u))
      && (forall x :: Sized(v, x) ==> Sized(u, x)) && (forall x :: Coalesced(v, x) ==> Coalesced(u, x))
      && (forall x :: LiveBut(v, x) == LiveBut(u, x))
  {
    var u := v.(complete := complete);
    if Tiling(v) {
      TilingFrame(v, u);
    }
    if Lists(v) {
      ListsFrame(v, u);
    }
    forall x | Coalesced(v, x)
      ensures Coalesced(u, x)
    {
      forall a | a in u.owner
        ensures NotBothFree(u, a, x)
      {
        assert NotBothFree(v, a, x);
      }
    }
  }

  /** Between calls the tag of a live block is ready to be worked on. */
  lemma LiveIsWorking(w: World, t: int)
    requires Inv(w) && IsLive(w, t)
    ensures Working(w, t) && CoalescedAway(w, t) && At(w.tags, t).magic == MAGIC
    ensures LiveBut(w, t) == Live(w) - {t}
  {
    assert TagTiles(w, t);
    BelowCursor(w, t);
  }

  /** free of a live block removes exactly that block. */
  lemma FreeKeepsInv(w: World, ptr: int)
    requires Inv(w) && IsLive(w, ptr - HEADER)
    ensures Inv(Free(w, ptr))
    ensures Live(Free(w, ptr)) == Live(w) - {ptr - HEADER}
  {
    var t := ptr - HEADER;
    LiveIsWorking(w, t);
    BelowCursor(w, t);
    MeltOk(w, t);
    var (v, l) := Melt(w, t);
    AbsorbOk(v, l);
    Closed(Absorb(v, l), l);
    ShelveOk(Absorb(v, l), l);
  }
}
