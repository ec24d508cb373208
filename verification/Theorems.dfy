/** What every reachable state of the allocator satisfies. */
module Theorems {
  import opened Machine
  import opened PageSource
  import opened World
  import opened TagOps
  import opened ChainLemmas
  import opened FreeLemmas

  // ----- memory safety of the blocks handed out -----

  /** [a, a+m) and [b, b+n) have no address in common. */
  predicate Apart(a: int, m: int, b: int, n: int) {
    a + m <= b || b + n <= a || m == 0 || n == 0
  }

  /** A live payload meets no header in use and no other payload, and lies in a held chunk. */
  lemma PayloadIsPrivate(w: World, a: int, b: int)
    requires Inv(w) && a in Live(w) && b in w.owner
    ensures Apart(a + HEADER, Live(w)[a], b, HEADER)
    ensures b in Live(w) && b != a ==> Apart(a + HEADER, Live(w)[a], b + HEADER, Live(w)[b])
    ensures w.owner[a] in w.src.held
    ensures w.owner[a] <= a && a + HEADER + Live(w)[a] <= w.owner[a] + PAGE * w.src.held[w.owner[a]]
    ensures w.src.start <= a && (w.src.granted != [] ==> a + HEADER + Live(w)[a] < w.src.end)
  {
    assert WellSized(At(w.tags, a));
    assert b in Live(w) ==> WellSized(At(w.tags, b));
    assert Clear(w, a, b) && Clear(w, b, a);
    assert TagTiles(w, a);
    BelowCursor(w, a);
    BelowCursor(w, b);
  }

  /** At most 319 bytes of a live block's tag are not its payload, 32 of them the header. */
  lemma BoundedWaste(w: World, a: int)
    requires Inv(w) && a in Live(w)
    ensures Live(w)[a] + HEADER <= w.tags[a].realSize <= Live(w)[a] + 319
  {
    BelowCursor(w, a);
    assert WellSized(At(w.tags, a));
  }

  // ----- tiling -----

  /** The tags met by following split_right from `a`. */
  ghost function Chain(w: World, a: int): seq<int>
    requires Tiling(w) && a in w.owner
    decreases w.owner[a] + PAGE * w.src.held[w.owner[a]] - a
  {
    Neighbours(w, a);
    assert TagTiles(w, a);
    var r := w.tags[a].splitRight;
    if r == NULL then [a] else [a] + Chain(w, r)
  }

  ghost function SizeOf(w: World, l: seq<int>): int {
    if l == [] then 0 else At(w.tags, l[0]).realSize + SizeOf(w, l[1..])
  }

  /** Following split_right from any tag reaches exactly the end of its chunk. */
  lemma {:induction false} ChainSize(w: World, a: int)
    requires Tiling(w) && a in w.owner
    ensures a + SizeOf(w, Chain(w, a)) == w.owner[a] + PAGE * w.src.held[w.owner[a]]
    ensures forall x | x in Chain(w, a) :: x in w.owner && w.owner[x] == w.owner[a]
    decreases w.owner[a] + PAGE * w.src.held[w.owner[a]] - a
  {
    Neighbours(w, a);
    assert TagTiles(w, a);
    var r := w.tags[a].splitRight;
    if r != NULL {
      ChainSize(w, r);
      assert Chain(w, a)[1..] == Chain(w, r);
    }
  }

  /** Each tag of a chain starts where the one before it ends. */
  lemma {:induction false} ChainAbuts(w: World, a: int, i: nat)
    requires Tiling(w) && a in w.owner && i + 1 < |Chain(w, a)|
    ensures Chain(w, a)[i + 1] == Chain(w, a)[i] + At(w.tags, Chain(w, a)[i]).realSize
    decreases i
  {
    Neighbours(w, a);
    var r := w.tags[a].splitRight;
    if 0 < i {
      ChainAbuts(w, r, i - 1);
    }
  }

  /** The chain from `a` continues with the right neighbour of each of its tags. */
  lemma {:induction false} ChainGoesOn(w: World, a: int, x: int)
    requires Tiling(w) && a in w.owner && x in Chain(w, a) && At(w.tags, x).splitRight != NULL
    ensures At(w.tags, x).splitRight in Chain(w, a)
    decreases w.owner[a] + PAGE * w.src.held[w.owner[a]] - a
  {
    Neighbours(w, a);
    assert TagTiles(w, a);
    var r := w.tags[a].splitRight;
    if r != NULL {
      assert r == Chain(w, r)[0];
      if x != a {
        ChainGoesOn(w, r, x);
      }
    }
  }

  /** Every tag of a chunk is met from its base. */
  lemma {:induction false} ChainComplete(w: World, a: int)
    requires Tiling(w) && a in w.owner
    ensures w.owner[a] in w.owner && a in Chain(w, w.owner[a])
    decreases a - w.owner[a]
  {
    Neighbours(w, a);
    assert TagTiles(w, a);
    var l := w.tags[a].splitLeft;
    if l != NULL {
      assert TagTiles(w, l);
      ChainComplete(w, l);
      ChainGoesOn(w, w.owner[a], l);
    } else {
      assert a == Chain(w, a)[0];
    }
  }

  /** The tags of a held chunk are one chain that fills it without gap or overlap. */
  lemma ChunkIsTiled(w: World, b: int)
    requires Inv(w) && b in w.src.held
    ensures b in w.owner && Chain(w, b)[0] == b
    ensures SizeOf(w, Chain(w, b)) == PAGE * w.src.held[b]
    ensures forall a :: a in Chain(w, b) <==> a in w.owner && w.owner[a] == b
    ensures forall i | 0 <= i < |Chain(w, b)| - 1 ::
      Chain(w, b)[i + 1] == Chain(w, b)[i] + At(w.tags, Chain(w, b)[i]).realSize
  {
    ChainSize(w, b);
    forall a | a in w.owner && w.owner[a] == b
      ensures a in Chain(w, b)
    {
      ChainComplete(w, a);
    }
    forall i | 0 <= i < |Chain(w, b)| - 1
      ensures Chain(w, b)[i + 1] == Chain(w, b)[i] + At(w.tags, Chain(w, b)[i]).realSize
    {
      ChainAbuts(w, b, i);
    }
  }

  // ----- conservation -----

  ghost function RealSizes(w: World): map<int, int> {
    map a | a in w.owner :: At(w.tags, a).realSize
  }

  ghost function ByteSizes(pages: map<int, int>): map<int, int> {
    map b | b in pages :: PAGE * pages[b]
  }

  lemma {:induction false} SumOfBytes(pages: map<int, int>)
    ensures Sum(ByteSizes(pages)) == PAGE * Sum(pages)
    decreases |pages|
  {
    if pages.Keys == {} {
      assert ByteSizes(pages).Keys == {};
    } else {
      var k := Pick(pages.Keys);
      SumWithout(pages, k);
      SumWithout(ByteSizes(pages), k);
      assert ByteSizes(pages) - {k} == ByteSizes(pages - {k});
      SumOfBytes(pages - {k});
    }
  }

  lemma MergedSum(w: World, v: World, l: int, t: int)
    requires Merged(w, v, l, t) && t in w.owner
    ensures Sum(RealSizes(v)) == Sum(RealSizes(w))
  {
    var m := RealSizes(w);
    MergedSizes(w, v, l, t);
    SumMerged(m, l, t);
  }

  lemma MergedSizes(w: World, v: World, l: int, t: int)
    requires Merged(w, v, l, t) && t in w.owner
    ensures l in RealSizes(w) && l != t
    ensures var m := RealSizes(w); RealSizes(v) == (m - {t})[l := m[l] + m[t]]
  {
  }

  lemma SumMerged(m: map<int, int>, l: int, t: int)
    requires l in m && t in m && l != t
    ensures Sum((m - {t})[l := m[l] + m[t]]) == Sum(m)
  {
    SumWithout(m, t);
    SumWith(m - {t}, l, m[l] + m[t]);
  }

  /** Where no tag has a left neighbour, every tag is a whole chunk. */
  lemma SizesOfWholes(w: World)
    requires Tiling(w) && forall a | a in w.owner :: At(w.tags, a).splitLeft == NULL
    ensures Sum(RealSizes(w)) == PAGE * Sum(w.src.held)
  {
    forall a | a in w.owner
      ensures a in w.src.held && At(w.tags, a).realSize == PAGE * w.src.held[a]
    {
      Neighbours(w, a);
      WholeIsChunk(w, a);
    }
    assert RealSizes(w).Keys == ByteSizes(w.src.held).Keys by {
      assert forall b | b in w.src.held :: b in w.owner;
    }
    assert RealSizes(w) == ByteSizes(w.src.held);
    SumOfBytes(w.src.held);
  }

  /** The bytes of all tags are the bytes of all held chunks: melting every chunk into one tag
      changes neither sum. */
  lemma {:induction false} SizesAddUp(w: World)
    requires Tiling(w)
    ensures Sum(RealSizes(w)) == PAGE * Sum(w.src.held)
    decreases |w.owner|
  {
    if t :| t in w.owner && At(w.tags, t).splitLeft != NULL {
      var v, l := MeltLeft(w, t), At(w.tags, t).splitLeft;
      MeltLeftEffect(w, t);
      MergedTiling(w, v, l, t);
      MergedSum(w, v, l, t);
      assert |v.owner| < |w.owner| by {
        assert v.owner.Keys == w.owner.Keys - {t};
      }
      SizesAddUp(v);
    } else {
      SizesOfWholes(w);
    }
  }

  /** Nothing is lost: the bytes of all tags in use are the pages obtained, less those returned. */
  lemma Conservation(w: World)
    requires Inv(w)
    ensures Sum(RealSizes(w)) == PAGE * (PageSum(w.src.granted) - PageSum(w.src.returned))
  {
    SizesAddUp(w);
  }

  // ----- the empty heap -----

  ghost function ChunksOfClass(w: World, i: int): set<int> {
    set b | b in w.src.held && Class(PAGE * w.src.held[b] - HEADER) == i
  }

  lemma NothingLive(w: World, a: int)
    requires Inv(w) && Live(w) == map[] && a in w.owner
    ensures IsFree(w, a)
  {
    assert a !in Live(w);
    BelowCursor(w, a);
    ListedIsFree(w, a);
  }

  lemma FreeIsWhole(w: World, a: int)
    requires Inv(w) && a in w.owner && forall b | b in w.owner :: IsFree(w, b)
    ensures Whole(At(w.tags, a)) && a in w.src.held && w.owner[a] == a
    ensures At(w.tags, a).realSize == PAGE * w.src.held[a]
  {
    Neighbours(w, a);
    var l := w.tags[a].splitLeft;
    assert NotBothFree(w, a, NULL) && (l in w.owner ==> NotBothFree(w, l, NULL));
    WholeIsChunk(w, a);
  }

  lemma ChunksAreWholes(w: World, i: int)
    requires Inv(w) && MIN_EXP <= i < MAX_EXP
    requires forall a | a in w.owner ::
      IsFree(w, a) && Whole(At(w.tags, a)) && a in w.src.held && At(w.tags, a).realSize == PAGE * w.src.held[a]
    ensures ChunksOfClass(w, i) == Wholes(w, i)
  {
    forall b
      ensures b in ChunksOfClass(w, i) <==> b in Wholes(w, i)
    {
      if b in w.owner {
        BelowCursor(w, b);
        assert WellSized(At(w.tags, b));
      }
    }
  }

  /** With nothing live every held chunk is a single free tag, and at most five per class remain. */
  lemma EmptyHeapIsWhole(w: World, i: int)
    requires Inv(w) && Live(w) == map[] && MIN_EXP <= i < MAX_EXP
    ensures forall a | a in w.owner :: Whole(w.tags[a]) && a in w.src.held && IsFree(w, a)
    ensures |ChunksOfClass(w, i)| <= MAX_COMPLETE
  {
    forall a | a in w.owner
      ensures IsFree(w, a)
    {
      NothingLive(w, a);
    }
    forall a | a in w.owner
      ensures Whole(At(w.tags, a)) && a in w.src.held && At(w.tags, a).realSize == PAGE * w.src.held[a]
    {
      FreeIsWhole(w, a);
    }
    ChunksAreWholes(w, i);
    assert w.complete[i] == |Wholes(w, i)|;
  }

  // ----- the free lists -----

  /** A list holds exactly the tags with its index, and those are the free tags of its size. */
  lemma ListsByClass(w: World, i: int, a: int)
    requires Inv(w) && MIN_EXP <= i < MAX_EXP && a in w.owner
    ensures a in w.lists[i] <==> w.tags[a].index == i
    ensures a in w.lists[i] <==> IsFree(w, a) && i == Class(w.tags[a].realSize - HEADER)
  {
    BelowCursor(w, a);
    assert Filed(w, a) && WellSized(At(w.tags, a));
    if a in w.lists[i] {
      var k :| 0 <= k < |w.lists[i]| && w.lists[i][k] == a;
      assert IsList(w, i) && Node(w, i, k);
    }
  }

  /** Each counter is the number of tags in its list that are a whole chunk, at most five. */
  lemma CountersExact(w: World, i: int)
    requires Inv(w) && 0 <= i < MAX_EXP
    ensures w.complete[i] == |set a | a in w.lists[i] && Whole(At(w.tags, a))| <= MAX_COMPLETE
  {
    assert IsList(w, i);
    forall a
      ensures a in w.lists[i] && Whole(At(w.tags, a)) <==> a in Wholes(w, i)
    {
      if a in w.lists[i] {
        var k :| 0 <= k < |w.lists[i]| && w.lists[i][k] == a;
        assert Node(w, i, k);
      }
      assert a in w.owner ==> Filed(w, a);
    }
    assert Wholes(w, i) == set a | a in w.lists[i] && Whole(At(w.tags, a));
    assert w.complete[i] == |Wholes(w, i)|;
  }
}
