/** Merging, cutting, granting and releasing keep every chunk tiled. */
module ChainLemmas {
  import opened Machine
  import opened PageSource
  import opened World
  import opened TagOps
  import opened ListLemmas

  /** The neighbours of a tag, and that addresses increase along a chain. */
  lemma Neighbours(w: World, t: int)
    requires Tiling(w) && t in w.owner
    ensures var g := At(w.tags, t);
      && g == w.tags[t]
      && (g.splitLeft != NULL ==>
            && g.splitLeft in w.owner && g.splitLeft < t
            && At(w.tags, g.splitLeft).splitRight == t
            && g.splitLeft + At(w.tags, g.splitLeft).realSize == t)
      && (g.splitRight != NULL ==>
            && g.splitRight in w.owner && t < g.splitRight
            && At(w.tags, g.splitRight).splitLeft == t
            && g.splitRight == t + g.realSize)
  {
    assert TagTiles(w, t);
    if At(w.tags, t).splitLeft != NULL {
      assert TagTiles(w, At(w.tags, t).splitLeft);
    }
  }

  /** `l` has swallowed its right neighbour `t`. */
  ghost predicate Merged(w: World, v: World, l: int, t: int) {
    && v.owner == w.owner - {t} && v.src == w.src && v.complete == w.complete
    && v.tags.Keys == w.tags.Keys
    && l in v.owner
    && At(v.tags, l).realSize == At(w.tags, l).realSize + At(w.tags, t).realSize
    && At(v.tags, l).splitRight == At(w.tags, t).splitRight
    && At(v.tags, l).splitLeft == At(w.tags, l).splitLeft
    && At(v.tags, l).size == At(w.tags, l).size
    && At(v.tags, l).magic == At(w.tags, l).magic
    && (forall a | a in v.owner && a != l ::
          && At(v.tags, a).splitLeft == (if a == At(w.tags, t).splitRight then l else At(w.tags, a).splitLeft)
          && At(v.tags, a).splitRight == At(w.tags, a).splitRight
          && At(v.tags, a).realSize == At(w.tags, a).realSize
          && At(v.tags, a).size == At(w.tags, a).size
          && At(v.tags, a).index == At(w.tags, a).index
          && At(v.tags, a).magic == At(w.tags, a).magic)
  }

  lemma MeltLeftEffect(w: World, t: int)
    requires Tiling(w) && t in w.owner && At(w.tags, t).splitLeft != NULL
    ensures var l, v := At(w.tags, t).splitLeft, MeltLeft(w, t);
      && Merged(w, v, l, t) && At(v.tags, l).index == At(w.tags, l).index
      && SameLists(w, v)
      && (forall a | a in w.tags && a != l && a != At(w.tags, t).splitRight :: v.tags[a] == w.tags[a])
  {
    Neighbours(w, t);
  }

  lemma MergedPlaced(w: World, v: World, l: int, t: int)
    requires Tiling(w) && t in w.owner && At(w.tags, t).splitLeft == l != NULL
    requires Merged(w, v, l, t)
    ensures Placed(v)
  {
    assert TagTiles(w, t);
    assert w.owner[l] in w.src.held;
    assert TagTiles(w, l);
  }

  lemma MergedTile(w: World, v: World, l: int, t: int)
    requires Tiling(w) && t in w.owner && At(w.tags, t).splitLeft == l != NULL
    requires Merged(w, v, l, t) && Placed(v)
    ensures TagTiles(v, l)
  {
    Neighbours(w, t);
    Neighbours(w, l);
    assert TagTiles(w, t) && TagTiles(w, l);
  }

  lemma MergedOthersTile(w: World, v: World, l: int, t: int, a: int)
    requires Tiling(w) && t in w.owner && At(w.tags, t).splitLeft == l != NULL
    requires Merged(w, v, l, t) && Placed(v) && a in v.owner && a != l
    ensures TagTiles(v, a)
  {
    assert TagTiles(w, a) && TagTiles(w, t);
    Neighbours(w, t);
    Neighbours(w, a);
  }

  lemma MergedSeparate(w: World, v: World, l: int, t: int)
    requires Separate(w) && Merged(w, v, l, t) && t in w.owner
    requires l < t && l + At(w.tags, l).realSize == t
    ensures Separate(v)
  {
    forall a, b | a in v.owner && b in v.owner
      ensures Clear(v, a, b)
    {
      assert Clear(w, a, b) && Clear(w, t, b);
    }
  }

  lemma MergedTiling(w: World, v: World, l: int, t: int)
    requires Tiling(w) && t in w.owner && At(w.tags, t).splitLeft == l != NULL
    requires Merged(w, v, l, t)
    ensures Tiling(v)
  {
    MergedPlaced(w, v, l, t);
    MergedTile(w, v, l, t);
    forall a | a in v.owner
      ensures TagTiles(v, a)
    {
      if a != l {
        MergedOthersTile(w, v, l, t, a);
      }
    }
    Neighbours(w, t);
    MergedSeparate(w, v, l, t);
  }

  lemma MergedSized(w: World, v: World, l: int, t: int, x: int)
    requires Merged(w, v, l, t) && Sized(w, x) && (x == l || x == t)
    ensures Sized(v, l)
  {
    assert forall a | a in v.owner && a != l :: a in w.owner && a != x;
  }

  lemma MergedCoalesced(w: World, v: World, l: int, t: int, x: int)
    requires Tiling(w) && t in w.owner && At(w.tags, t).splitLeft == l != NULL
    requires Merged(w, v, l, t) && CoalescedAway(w, x) && (x == l || x == t)
    ensures CoalescedAway(v, l)
  {
    Neighbours(w, t);
    forall a | a in v.owner && a != l && At(v.tags, a).splitRight != l
      ensures NotBothFree(v, a, NULL)
    {
      Neighbours(w, a);
      assert NotBothFree(w, a, NULL);
    }
  }

  /** Merging takes no listed tag out of the whole ones and puts none in. */
  lemma MergedWholes(w: World, v: World, l: int, t: int, i: int)
    requires Tiling(w) && t in w.owner && At(w.tags, t).splitLeft == l != NULL
    requires Merged(w, v, l, t) && At(v.tags, l).index == -1 && 0 <= i
    ensures Wholes(v, i) == Wholes(w, i)
  {
    Neighbours(w, t);
    forall a | a in v.owner
      ensures a in Wholes(v, i) <==> a in Wholes(w, i)
    {
    }
  }

  lemma MergedLive(w: World, v: World, l: int, t: int, x: int)
    requires Merged(w, v, l, t) && (x == l || x == t)
    requires x == t ==> At(w.tags, l).index != -1
    requires x == l ==> At(w.tags, t).index != -1
    ensures LiveBut(v, l) == LiveBut(w, x)
  {
  }

  // ----- cutting a tag in two -----

  /** The room a split needs: the payload, and a second header with the rest. */
  ghost predicate Cuttable(w: World, t: int) {
    && t in w.owner && 0 <= At(w.tags, t).size
    && At(w.tags, t).index == -1
    && At(w.tags, t).size + 2 * HEADER <= At(w.tags, t).realSize
  }

  ghost function CutPoint(w: World, t: int): int {
    Behind(t, At(w.tags, t).size)
  }

  /** The same, unless the sum wraps. */
  ghost function PayloadEnd(w: World, t: int): int {
    t + HEADER + At(w.tags, t).size
  }

  lemma CutPointIsNew(w: World, t: int)
    requires Tiling(w) && Cuttable(w, t)
    ensures CutPoint(w, t) == PayloadEnd(w, t) && CutPoint(w, t) !in w.owner && 0 < t < CutPoint(w, t)
    ensures At(w.tags, t).realSize < TWO31
  {
    assert TagTiles(w, t);
    BelowCursor(w, t);
    assert PayloadEnd(w, t) in w.owner ==> Clear(w, t, PayloadEnd(w, t));
  }

  /** `t` keeps exactly its payload and header; `n` gets everything behind it. */
  ghost predicate Cut(w: World, v: World, t: int, n: int)
    requires t in w.owner
  {
    var g := At(w.tags, t);
    && v.owner == w.owner[n := w.owner[t]] && v.src == w.src && v.complete == w.complete
    && v.tags.Keys == w.tags.Keys + {n}
    && At(v.tags, n) == Tag(MAGIC, 0, g.realSize - HEADER - g.size, -1, t, g.splitRight, NULL, NULL)
    && At(v.tags, t) == g.(realSize := HEADER + g.size, splitRight := n)
    && (forall a | a in w.owner && a != t ::
          At(v.tags, a) == At(w.tags, a).(splitLeft := if a == g.splitRight then n else At(w.tags, a).splitLeft))
  }

  /** Header `n` is new, `t` has a new size and right link, and `r`, if any, a new left link. */
  ghost predicate Spliced(w: World, v: World, t: int, n: int, rest: Tag, r: int, size: int, base: int) {
    && v.owner == w.owner[n := base] && v.src == w.src && v.complete == w.complete
    && v.lists == w.lists && v.heads == w.heads
    && v.tags.Keys == w.tags.Keys + {n} && At(v.tags, n) == rest
    && At(v.tags, t) == At(w.tags, t).(realSize := size, splitRight := n)
    && (forall a | a in w.tags && a != t && a != n ::
          v.tags[a] == if a == r then w.tags[a].(splitLeft := n) else w.tags[a])
  }

  lemma SpliceEffect(w: World, t: int, n: int, rest: Tag, r: int, size: int, base: int)
    requires t in w.tags && NULL !in w.tags && n != NULL && n != t && r != t && r != n
    requires r != NULL ==> r in w.tags
    ensures var v := PutRight(PutRealSize(PutLeft(Own(Put(w, n, rest), n, base), r, n), t, size), t, n);
      Spliced(w, v, t, n, rest, r, size, base)
  {
  }

  lemma SplicedIsCut(w: World, v: World, t: int, n: int, rest: Tag)
    requires Present(w) && Cuttable(w, t) && n !in w.owner
    requires var g := At(w.tags, t);
      && rest == Tag(MAGIC, 0, g.realSize - HEADER - g.size, -1, t, g.splitRight, NULL, NULL)
      && Spliced(w, v, t, n, rest, g.splitRight, g.realSize - rest.realSize, w.owner[t])
    ensures Cut(w, v, t, n) && SameLists(w, v)
    ensures forall a | a in w.tags && a != t && a != n && a != At(w.tags, t).splitRight :: v.tags[a] == w.tags[a]
  {
  }

  lemma CutEffect(w: World, t: int)
    requires Tiling(w) && Cuttable(w, t)
    ensures var v, n := CutTag(w, t), CutPoint(w, t);
      && Cut(w, v, t, n) && SameLists(w, v)
      && (forall a | a in w.tags && a != t && a != n && a != At(w.tags, t).splitRight :: v.tags[a] == w.tags[a])
  {
    var g, n, rest := At(w.tags, t), CutPoint(w, t), RestOf(w, t);
    var size := g.realSize - rest.realSize;
    CutPointIsNew(w, t);
    Neighbours(w, t);
    CutParts(w, t, n, rest, g.splitRight, size, ChunkOf(w, t));
    SpliceEffect(w, t, n, rest, g.splitRight, size, ChunkOf(w, t));
    SplicedIsCut(w, CutTag(w, t), t, n, rest);
  }

  /** The two halves of a cut fill their places. */
  lemma CutHalvesTile(w: World, v: World, t: int, n: int)
    requires Tiling(w) && Cuttable(w, t) && n == PayloadEnd(w, t)
    requires Cut(w, v, t, n) && Placed(v) && n !in w.owner
    ensures TagTiles(v, t) && TagTiles(v, n)
  {
    assert TagTiles(w, t);
    Neighbours(w, t);
  }

  lemma CutOthersTile(w: World, v: World, t: int, n: int, a: int)
    requires Tiling(w) && Cuttable(w, t) && n == PayloadEnd(w, t)
    requires Cut(w, v, t, n) && Placed(v) && a in w.owner && a != t && n !in w.owner
    ensures TagTiles(v, a)
  {
    assert TagTiles(w, a);
    Neighbours(w, a);
    Neighbours(w, t);
  }

  lemma CutSeparate(w: World, v: World, t: int, n: int)
    requires Separate(w) && Cuttable(w, t) && n == PayloadEnd(w, t) && Cut(w, v, t, n)
    ensures Separate(v)
  {
    forall a, b | a in v.owner && b in v.owner
      ensures Clear(v, a, b)
    {
      if a != n {
        assert a in w.owner && Clear(w, a, t) && Clear(w, t, a);
      }
      if b != n {
        assert b in w.owner && Clear(w, t, b);
      }
      if a != n && b != n {
        assert Clear(w, a, b);
      }
    }
  }

  lemma CutPlaced(w: World, v: World, t: int, n: int)
    requires Tiling(w) && Cuttable(w, t) && n == PayloadEnd(w, t) && Cut(w, v, t, n) && n > 0
    ensures Placed(v)
  {
    assert TagTiles(w, t);
  }

  lemma CutTiling(w: World, v: World, t: int, n: int)
    requires Tiling(w) && Cuttable(w, t) && n == PayloadEnd(w, t) && Cut(w, v, t, n)
    ensures Tiling(v)
  {
    CutPointIsNew(w, t);
    CutPlaced(w, v, t, n);
    CutHalvesTile(w, v, t, n);
    forall a | a in v.owner
      ensures TagTiles(v, a)
    {
      if a != t && a != n {
        CutOthersTile(w, v, t, n, a);
      }
    }
    CutSeparate(w, v, t, n);
  }

  lemma CutSized(w: World, v: World, t: int, n: int)
    requires Cuttable(w, t) && Cut(w, v, t, n) && Sized(w, t)
    ensures Sized(v, n)
  {
  }

  lemma CutCoalesced(w: World, v: World, t: int, n: int)
    requires Tiling(w) && Cuttable(w, t) && n == PayloadEnd(w, t) && Cut(w, v, t, n) && n !in w.owner
    requires Coalesced(w, t)
    ensures Coalesced(v, n)
  {
    forall a | a in v.owner
      ensures NotBothFree(v, a, n)
    {
      if a == n {
        Neighbours(w, t);
        assert NotBothFree(w, t, t);
      } else {
        Neighbours(w, a);
        assert NotBothFree(w, a, t);
      }
    }
  }

  lemma CutWholes(w: World, v: World, t: int, n: int, i: int)
    requires Tiling(w) && Cuttable(w, t) && n == PayloadEnd(w, t) && Cut(w, v, t, n) && n !in w.owner
    requires 0 <= i
    ensures Wholes(v, i) == Wholes(w, i)
  {
    Neighbours(w, t);
    BelowCursor(w, t);
  }

  lemma CutLive(w: World, v: World, t: int, n: int)
    requires Tiling(w) && Cuttable(w, t) && n == PayloadEnd(w, t) && Cut(w, v, t, n) && n !in w.owner
    ensures LiveBut(v, n) == LiveBut(w, t)[t := At(w.tags, t).size]
  {
  }

  /** Melting undoes a cut: the chains and every header in use are as before. */
  lemma MeltUndoesCut(w: World, t: int)
    requires Tiling(w) && Cuttable(w, t)
    ensures var v := MeltLeft(CutTag(w, t), CutPoint(w, t));
      v.owner == w.owner && forall a | a in w.owner :: At(v.tags, a) == w.tags[a]
  {
    CutEffect(w, t);
    CutPointIsNew(w, t);
    CutTiling(w, CutTag(w, t), t, CutPoint(w, t));
    MeltLeftEffect(CutTag(w, t), CutPoint(w, t));
    MergeUndoesCut(w, CutTag(w, t), MeltLeft(CutTag(w, t), CutPoint(w, t)), t, CutPoint(w, t));
  }

  lemma MergeUndoesCut(w: World, v: World, u: World, t: int, n: int)
    requires Tiling(w) && Cuttable(w, t) && n !in w.owner && n != NULL
    requires Cut(w, v, t, n) && Merged(v, u, t, n) && SameLists(v, u)
    ensures u.owner == w.owner && forall a | a in w.owner :: At(u.tags, a) == w.tags[a]
  {
    Neighbours(w, t);
    forall a | a in w.owner
      ensures At(u.tags, a) == w.tags[a]
    {
      Neighbours(w, a);
    }
  }

  // ----- a new chunk, and giving one back -----

  ghost predicate ChunkAdded(w: World, v: World, t: int, pages: int, size: int) {
    && v.owner == w.owner[t := t] && v.complete == w.complete
    && v.heads == w.heads && v.lists == w.lists
    && v.tags == w.tags[t := Tag(MAGIC, size, PAGE * pages, -1, NULL, NULL, NULL, NULL)]
    && v.src == Grown(w.src, pages)
  }

  lemma BelowCursor(w: World, a: int)
    requires Tiling(w) && a in w.owner
    ensures HEADER <= At(w.tags, a).realSize && 0 < w.src.start <= a && a + At(w.tags, a).realSize <= w.src.cur
  {
    assert TagTiles(w, a);
    assert w.owner[a] in w.src.held;
  }

  lemma GrownTiles(w: World, v: World, t: int, pages: int, size: int, a: int)
    requires a in w.owner && a in w.tags && w.owner[a] in w.src.held && TagTiles(w, a)
    requires ChunkAdded(w, v, t, pages, size) && t !in w.owner && w.owner[a] != t && t == w.src.cur
    ensures TagTiles(v, a)
  {
  }

  lemma GrownSeparate(w: World, v: World, t: int, pages: int, size: int)
    requires Tiling(w) && ChunkAdded(w, v, t, pages, size) && t == w.src.cur
    ensures Separate(v)
  {
    forall a, b | a in v.owner && b in v.owner
      ensures Clear(v, a, b)
    {
      if a != t {
        BelowCursor(w, a);
      }
      if b != t {
        BelowCursor(w, b);
      }
      if a != t && b != t {
        assert Clear(w, a, b);
      }
    }
  }

  lemma GrownTiling(w: World, v: World, t: int, pages: int, size: int)
    requires Tiling(w) && ChunkAdded(w, v, t, pages, size) && t == w.src.cur && MIN_PAGES <= pages
    requires SourceOk(v.src)
    ensures Tiling(v) && t !in w.owner && t > 0
  {
    if t in w.owner {
      BelowCursor(w, t);
    }
    assert Placed(v);
    forall a | a in v.owner
      ensures TagTiles(v, a)
    {
      if a != t {
        assert TagTiles(w, a);
        GrownTiles(w, v, t, pages, size, a);
      }
    }
    GrownSeparate(w, v, t, pages, size);
  }

  lemma GrownLists(w: World, v: World, t: int, pages: int, size: int)
    requires ChunkAdded(w, v, t, pages, size) && t !in w.owner && t > 0 && Lists(w)
    ensures Lists(v)
  {
    ListsFrame(w, v);
  }

  lemma GrownCoalesced(w: World, v: World, t: int, pages: int, size: int)
    requires Tiling(w) && ChunkAdded(w, v, t, pages, size) && t !in w.owner && t > 0 && Coalesced(w, NULL)
    ensures Coalesced(v, t)
  {
    forall a | a in v.owner
      ensures NotBothFree(v, a, t)
    {
      if a != t {
        Neighbours(w, a);
        assert NotBothFree(w, a, NULL);
      }
    }
  }

  lemma GrownLive(w: World, v: World, t: int, pages: int, size: int)
    requires ChunkAdded(w, v, t, pages, size) && t !in w.owner && NULL !in w.owner
    ensures Sized(w, NULL) ==> Sized(v, t)
    ensures LiveBut(v, t) == Live(w)
  {
  }

  lemma GrownWholes(w: World, v: World, t: int, pages: int, size: int, i: int)
    requires ChunkAdded(w, v, t, pages, size) && t !in w.owner && 0 <= i
    ensures Wholes(v, i) == Wholes(w, i)
  {
  }

  lemma WholeIsChunk(w: World, t: int)
    requires Tiling(w) && t in w.owner && Whole(At(w.tags, t))
    ensures w.owner[t] == t && t in w.src.held && At(w.tags, t).realSize == PAGE * w.src.held[t]
    ensures forall a | a in w.owner && a != t :: w.owner[a] != t
  {
    assert TagTiles(w, t);
    forall a | a in w.owner && a != t
      ensures w.owner[a] != t
    {
      assert TagTiles(w, a);
      assert Clear(w, t, a);
    }
  }

  lemma ReleaseTiling(w: World, t: int)
    requires Tiling(w) && t in w.owner && Whole(At(w.tags, t))
    ensures t in w.src.held && Tiling(Release(w, t, w.src.held[t]))
  {
    WholeIsChunk(w, t);
    GiveBackOk(w.src, t);
    var v := Release(w, t, w.src.held[t]);
    forall a | a in v.owner
      ensures TagTiles(v, a)
    {
      assert TagTiles(w, a);
      Neighbours(w, a);
    }
    forall a, b | a in v.owner && b in v.owner
      ensures Clear(v, a, b)
    {
      assert Clear(w, a, b);
    }
  }

  lemma ReleaseCoalesced(w: World, t: int)
    requires Tiling(w) && t in w.owner && Whole(At(w.tags, t)) && CoalescedAway(w, t)
    ensures Coalesced(Release(w, t, w.src.held[w.owner[t]]), NULL)
  {
    var v := Release(w, t, w.src.held[w.owner[t]]);
    forall a | a in v.owner
      ensures NotBothFree(v, a, NULL)
    {
      Neighbours(w, a);
      assert NotBothFree(w, a, NULL);
    }
  }

  lemma ReleaseRest(w: World, t: int, pages: int)
    requires t in w.owner && At(w.tags, t).index == -1 && NULL !in w.owner
    requires Lists(w) && Sized(w, t)
    ensures var v := Release(w, t, pages);
      && Lists(v) && Sized(v, NULL) && Live(v) == LiveBut(w, t)
      && (forall i | 0 <= i :: Wholes(v, i) == Wholes(w, i))
  {
    var v := Release(w, t, pages);
    ListsFrame(w, v);
  }
}
