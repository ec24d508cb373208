/** What taking a tag off its list, or filing it, means for the rest of the invariant. */
module FileLemmas {
  import opened Machine
  import opened World
  import opened TagOps
  import opened ListLemmas
  import opened ChainLemmas

  lemma UnfiledSized(w: World, t: int)
    requires Lists(w) && Present(w) && t in w.owner && IsFree(w, t)
    ensures Sized(w, NULL) || Sized(w, t) ==> Sized(RemoveTag(w, t), t)
  {
    RemoveTagEffect(w, t);
  }

  lemma UnfiledCoalesced(w: World, t: int)
    requires Lists(w) && Tiling(w) && t in w.owner && IsFree(w, t)
    ensures Coalesced(w, NULL) ==> Coalesced(RemoveTag(w, t), t)
    ensures CoalescedAway(w, t) ==> CoalescedAway(RemoveTag(w, t), t)
  {
    RemoveTagEffect(w, t);
    var v := RemoveTag(w, t);
    forall a | a in v.owner
      ensures NotBothFree(w, a, NULL) ==> NotBothFree(v, a, t) && NotBothFree(v, a, NULL)
    {
      Neighbours(w, a);
    }
  }

  lemma UnfiledWholes(w: World, t: int, i: int)
    requires Lists(w) && Present(w) && t in w.owner && IsFree(w, t) && 0 <= i
    ensures Wholes(RemoveTag(w, t), i) == Wholes(w, i) - {t}
  {
    RemoveTagEffect(w, t);
  }

  lemma UnfiledLive(w: World, t: int)
    requires Lists(w) && Present(w) && t in w.owner && IsFree(w, t)
    ensures LiveBut(RemoveTag(w, t), t) == Live(w)
  {
    RemoveTagEffect(w, t);
  }

  lemma FiledSized(w: World, t: int, i: int)
    requires Lists(w) && Present(w) && t in w.owner && At(w.tags, t).index == -1 && MIN_EXP <= i < MAX_EXP
    requires Sized(w, t) && i == Class(At(w.tags, t).realSize - HEADER)
    ensures Sized(InsertTag(w, t, i), NULL)
  {
    InsertTagEffect(w, t, i);
  }

  lemma FiledCoalesced(w: World, t: int, i: int)
    requires Lists(w) && Tiling(w) && t in w.owner && At(w.tags, t).index == -1 && MIN_EXP <= i < MAX_EXP
    requires Coalesced(w, t)
    ensures Coalesced(InsertTag(w, t, i), NULL)
  {
    InsertTagEffect(w, t, i);
    var v := InsertTag(w, t, i);
    forall a | a in v.owner
      ensures NotBothFree(v, a, NULL)
    {
      Neighbours(w, a);
      assert NotBothFree(w, a, t);
    }
  }

  lemma FiledWholes(w: World, t: int, i: int, j: int)
    requires Lists(w) && Present(w) && t in w.owner && At(w.tags, t).index == -1 && MIN_EXP <= i < MAX_EXP
    requires 0 <= j
    ensures Wholes(InsertTag(w, t, i), j)
         == Wholes(w, j) + (if i == j && Whole(At(w.tags, t)) then {t} else {})
    ensures t !in Wholes(w, j)
  {
    InsertTagEffect(w, t, i);
  }

  lemma FiledLive(w: World, t: int, i: int)
    requires Lists(w) && Present(w) && t in w.owner && At(w.tags, t).index == -1 && MIN_EXP <= i < MAX_EXP
    ensures Live(InsertTag(w, t, i)) == LiveBut(w, t)
  {
    InsertTagEffect(w, t, i);
  }
}
