/** Filing and unfiling a tag keep every free list well formed. */
module ListLemmas {
  import opened Machine
  import opened World
  import opened TagOps

  /** The same chains: only list links, indices and request sizes may differ. */
  ghost predicate SameChains(v: World, w: World) {
    && v.owner == w.owner && v.src == w.src && v.tags.Keys == w.tags.Keys
    && (forall a | a in w.owner ::
          && At(v.tags, a).magic == At(w.tags, a).magic
          && At(v.tags, a).realSize == At(w.tags, a).realSize
          && At(v.tags, a).splitLeft == At(w.tags, a).splitLeft
          && At(v.tags, a).splitRight == At(w.tags, a).splitRight)
  }

  lemma TilingFrame(v: World, w: World)
    requires Tiling(v) && SameChains(v, w)
    ensures Tiling(w)
  {
    forall a | a in w.owner
      ensures TagTiles(w, a)
    {
      assert TagTiles(v, a);
    }
    forall a, b | a in w.owner && b in w.owner
      ensures Clear(w, a, b)
    {
      assert Clear(v, a, b);
    }
  }

  /** The same lists: no link or index of a tag still in use differs. */
  ghost predicate SameLists(v: World, w: World) {
    && v.lists == w.lists && v.heads == w.heads
    && (forall a | a in w.owner && a in v.owner ::
          && At(v.tags, a).index == At(w.tags, a).index
          && At(v.tags, a).next == At(w.tags, a).next
          && At(v.tags, a).prev == At(w.tags, a).prev)
  }

  lemma ListsFrame(v: World, w: World)
    requires Lists(v) && SameLists(v, w)
    requires forall a | a in v.owner && a !in w.owner :: At(v.tags, a).index == -1
    requires forall a | a in w.owner && a !in v.owner :: Filed(w, a)
    ensures Lists(w)
  {
    forall i | 0 <= i < MAX_EXP
      ensures IsList(w, i)
    {
      assert IsList(v, i);
      forall k | 0 <= k < |w.lists[i]|
        ensures Node(w, i, k)
      {
        assert Node(v, i, k);
      }
    }
    forall a | a in w.owner
      ensures Filed(w, a)
    {
      if a in v.owner {
        assert Filed(v, a);
      }
    }
  }

  /** Where a filed tag is in its list, and that its links lead to its neighbours there. */
  lemma FiledAt(w: World, t: int) returns (k: nat)
    requires Lists(w) && t in w.owner && IsFree(w, t)
    ensures var i := At(w.tags, t).index;
      && MIN_EXP <= i < MAX_EXP
      && k < |w.lists[i]| && w.lists[i][k] == t
      && Without(w.lists[i], t) == w.lists[i][..k] + w.lists[i][k + 1..]
      && IsList(w, i)
  {
    assert Filed(w, t);
    var i := At(w.tags, t).index;
    var l := w.lists[i];
    k :| 0 <= k < |l| && l[k] == t;
    assert IsList(w, i);
    assert forall j | 0 <= j < |l| && l[j] == t :: j == k;
  }

  /** The links of a filed tag lead to tags of the same list that lead back. */
  lemma LinksMutual(w: World, t: int)
    requires Lists(w) && Present(w) && t in w.owner && IsFree(w, t)
    ensures var g := At(w.tags, t);
      && MIN_EXP <= g.index < MAX_EXP
      && (g.next != NULL ==>
            g.next in w.owner && g.next != t
            && At(w.tags, g.next).index == g.index && At(w.tags, g.next).prev == t)
      && (g.prev != NULL ==>
            g.prev in w.owner && g.prev != t
            && At(w.tags, g.prev).index == g.index && At(w.tags, g.prev).next == t)
      && (g.prev != NULL && g.next != NULL ==> g.prev != g.next)
      && (w.heads[g.index] == t <==> g.prev == NULL)
  {
    var k := FiledAt(w, t);
    var i := At(w.tags, t).index;
    assert Node(w, i, k);
    if k + 1 < |w.lists[i]| {
      assert Node(w, i, k + 1);
    }
    if 0 < k {
      assert Node(w, i, k - 1);
    }
  }

  /** remove_tag changes the tag's own links and index, and one link each side. */
  lemma RemoveTagEffect(w: World, t: int)
    requires Lists(w) && Present(w) && t in w.owner && IsFree(w, t)
    ensures var g, v := At(w.tags, t), RemoveTag(w, t);
      && SameChains(w, v) && v.complete == w.complete
      && v.tags[t] == g.(next := NULL, prev := NULL, index := -1)
      && (forall a | a in w.tags && a != t ::
            v.tags[a] == w.tags[a].(next := if a == g.prev then g.next else w.tags[a].next,
                                    prev := if a == g.next then g.prev else w.tags[a].prev))
  {
    LinksMutual(w, t);
  }

  lemma RemoveTagOneList(w: World, v: World, t: int, k: nat)
    requires Lists(w) && Present(w) && t in w.owner && IsFree(w, t) && v.owner == w.owner
    requires |v.lists| == |v.heads| == MAX_EXP
    requires var g := At(w.tags, t);
      && MIN_EXP <= g.index < MAX_EXP && IsList(w, g.index)
      && k < |w.lists[g.index]| && w.lists[g.index][k] == t
      && v.lists[g.index] == w.lists[g.index][..k] + w.lists[g.index][k + 1..]
      && v.heads[g.index] == (if k == 0 then g.next else w.heads[g.index])
      && (forall a | a in w.owner && a != t ::
            At(v.tags, a) == At(w.tags, a).(next := if a == g.prev then g.next else At(w.tags, a).next,
                                            prev := if a == g.next then g.prev else At(w.tags, a).prev))
    ensures IsList(v, At(w.tags, t).index)
  {
    var i := At(w.tags, t).index;
    var l, m := w.lists[i], v.lists[i];
    assert Node(w, i, k);
    forall j | 0 <= j < |m|
      ensures Node(v, i, j)
    {
      assert Node(w, i, if j < k then j else j + 1);
    }
  }

  lemma RemoveTagLists(w: World, t: int)
    requires Lists(w) && Present(w) && t in w.owner && IsFree(w, t)
    ensures Lists(RemoveTag(w, t))
  {
    var v, g := RemoveTag(w, t), At(w.tags, t);
    RemoveTagEffect(w, t);
    LinksMutual(w, t);
    var k := FiledAt(w, t);
    RemoveTagOneList(w, v, t, k);
    forall i | 0 <= i < MAX_EXP && i != g.index
      ensures IsList(v, i)
    {
      assert IsList(w, i);
      forall k | 0 <= k < |v.lists[i]|
        ensures Node(v, i, k)
      {
        assert Node(w, i, k);
      }
    }
    forall a | a in v.owner && a != t
      ensures Filed(v, a)
    {
      assert Filed(w, a);
    }
  }

  /** insert_tag needs the tag's own links to be clear: it never clears them itself. */
  lemma InsertTagEffect(w: World, t: int, i: int)
    requires Lists(w) && Present(w) && t in w.owner
    requires At(w.tags, t).index == -1 && MIN_EXP <= i < MAX_EXP
    ensures var h, v := w.heads[i], InsertTag(w, t, i);
      && h != t && SameChains(w, v) && v.complete == w.complete
      && v.tags[t] == w.tags[t].(index := i, next := h)
      && (h != NULL ==> h in w.owner && At(w.tags, h).index == i && At(w.tags, h).prev == NULL)
      && (forall a | a in w.tags && a != t ::
            v.tags[a] == w.tags[a].(prev := if a == h then t else w.tags[a].prev))
  {
    assert Filed(w, t);
    assert IsList(w, i);
    if w.heads[i] != NULL {
      assert Node(w, i, 0);
    }
  }

  lemma InsertTagLists(w: World, t: int, i: int)
    requires Lists(w) && Present(w) && t in w.owner
    requires At(w.tags, t).index == -1 && MIN_EXP <= i < MAX_EXP
    ensures Lists(InsertTag(w, t, i))
  {
    var v := InsertTag(w, t, i);
    InsertTagEffect(w, t, i);
    assert IsList(w, i);
    assert Filed(w, t);
    var l, m := w.lists[i], v.lists[i];
    forall j | 0 <= j < |m|
      ensures Node(v, i, j)
    {
      if 0 < j {
        assert Node(w, i, j - 1);
      }
    }
    forall k | 0 <= k < |l|
      ensures l[k] != t
    {
      assert Node(w, i, k);
    }
    assert IsList(v, i);
    forall q | 0 <= q < MAX_EXP && q != i
      ensures IsList(v, q)
    {
      assert IsList(w, q);
      forall k | 0 <= k < |v.lists[q]|
        ensures Node(v, q, k)
      {
        assert Node(w, q, k);
      }
    }
    forall a | a in v.owner && a != t
      ensures Filed(v, a)
    {
      assert Filed(w, a);
    }
  }
}
