/** The critical sections of malloc and free, cut into stages at their helper calls. */
module CriticalSection {
  import opened Machine
  import opened PageSource
  import opened World
  import opened TagOps
  import opened Calls
  import opened Runs

  // ----- a critical section, one helper at a time -----

  datatype Stage =
    | Enter
    | Unfile(t: int)
    | Uncount(t: int, i: int)
    | Grow
    | Sizing(t: int)
    | Splitting(t: int)
    | Melting(t: int)
    | UnfileLeft(t: int)
    | Absorbing(t: int)
    | Shelving(t: int)
    | Leave(ptr: int)

  function Rank(st: Stage): nat {
    match st
    case Enter => 5
    case Unfile(_) => 4
    case Uncount(_, _) => 3
    case Grow => 3
    case Sizing(_) => 2
    case Splitting(_) => 1
    case Melting(_) => 4
    case UnfileLeft(_) => 3
    case Absorbing(_) => 2
    case Shelving(_) => 1
    case Leave(_) => 0
  }

  function SizeIn(c: Call): int {
    if c.DoMalloc? then c.size else 0
  }

  ghost function Work(w: World, c: Call, st: Stage): (r: (World, Stage))
    ensures !st.Leave? ==> Rank(r.1) < Rank(st)
  {
    match st
    case Enter =>
      (match c
       case DoMalloc(size) =>
         var t := Candidate(w, size);
         (w, if t != NULL then Unfile(t) else Grow)
       case DoFree(ptr) =>
         (w, if At(w.tags, ptr - HEADER).magic != MAGIC then Leave(NULL) else Melting(ptr - HEADER)))
    case Unfile(t) => (RemoveTag(w, t), Uncount(t, At(w.tags, t).index))
    case Uncount(t, i) => (if Whole(At(w.tags, t)) then Recount(w, i, -1) else w, Sizing(t))
    case Grow =>
      if Allows(w.src, PagesFor(SizeIn(c))) then (NewTag(w, SizeIn(c)), Sizing(w.src.cur)) else (w, Leave(NULL))
    case Sizing(t) => (PutSize(w, t, SizeIn(c)), Splitting(t))
    case Splitting(t) => (if Splits(w, t) then SplitTag(w, t) else w, Leave(t + HEADER))
    case Melting(t) =>
      if LeftIsFree(w, t) then (MeltLeft(w, t), UnfileLeft(At(w.tags, t).splitLeft)) else (w, Absorbing(t))
    case UnfileLeft(l) => (RemoveTag(w, l), Absorbing(l))
    case Absorbing(t) => (Absorb(w, t), Shelving(t))
    case Shelving(t) => (Shelve(w, t), Leave(NULL))
    case Leave(_) => (w, st)
  }

  /** The critical section run to its end from here, without interruption. */
  ghost function Finish(w: World, c: Call, st: Stage): (World, int)
    decreases Rank(st)
  {
    if st.Leave? then (w, st.ptr)
    else
      var (v, next) := Work(w, c, st);
      Finish(v, c, next)
  }

  lemma FinishPlace(w: World, c: Call, t: int)
    requires c.DoMalloc?
    ensures Finish(w, c, Sizing(t)) == (Place(w, t, c.size), t + HEADER)
  {
    var v := PutSize(w, t, c.size);
    assert Finish(w, c, Sizing(t)) == Finish(v, c, Splitting(t));
    var u := if Splits(v, t) then SplitTag(v, t) else v;
    assert Finish(v, c, Splitting(t)) == Finish(u, c, Leave(t + HEADER));
  }

  lemma FinishReuse(w: World, c: Call, t: int)
    requires c.DoMalloc?
    ensures Finish(w, c, Unfile(t)) == (Place(Reuse(w, t), t, c.size), t + HEADER)
  {
    var v, i := RemoveTag(w, t), At(w.tags, t).index;
    assert Finish(w, c, Unfile(t)) == Finish(v, c, Uncount(t, i));
    assert Finish(v, c, Uncount(t, i)) == Finish(Reuse(w, t), c, Sizing(t));
    FinishPlace(Reuse(w, t), c, t);
  }

  lemma FinishGrow(w: World, c: Call)
    requires c.DoMalloc? && Candidate(w, c.size) == NULL && (Allows(w.src, PagesFor(c.size)) ==> w.src.cur != NULL)
    ensures Finish(w, c, Grow) == Malloc(w, c.size)
  {
    ObtainParts(w, c.size, NULL);
    MallocParts(w, c.size, Obtain(w, c.size).0, Obtain(w, c.size).1);
    if Allows(w.src, PagesFor(c.size)) {
      var v, t := NewTag(w, c.size), w.src.cur;
      assert Finish(w, c, Grow) == Finish(v, c, Sizing(t));
      FinishPlace(v, c, t);
    } else {
      assert Finish(w, c, Grow) == Finish(w, c, Leave(NULL));
    }
  }

  /** The stages of malloc, uninterrupted, are malloc. */
  lemma FinishMalloc(w: World, c: Call)
    requires c.DoMalloc? && w.src.cur != NULL
    ensures Finish(w, c, Enter) == Malloc(w, c.size)
  {
    var t := Candidate(w, c.size);
    ObtainParts(w, c.size, t);
    MallocParts(w, c.size, Obtain(w, c.size).0, Obtain(w, c.size).1);
    if t != NULL {
      assert Finish(w, c, Enter) == Finish(w, c, Unfile(t));
      FinishReuse(w, c, t);
    } else {
      assert Finish(w, c, Enter) == Finish(w, c, Grow);
      FinishGrow(w, c);
    }
  }

  lemma FinishAbsorb(w: World, c: Call, t: int)
    ensures Finish(w, c, Absorbing(t)) == (Shelve(Absorb(w, t), t), NULL)
  {
    var v := Absorb(w, t);
    assert Finish(w, c, Absorbing(t)) == Finish(v, c, Shelving(t));
    assert Finish(v, c, Shelving(t)) == Finish(Shelve(v, t), c, Leave(NULL));
  }

  lemma FinishMelt(w: World, c: Call, t: int)
    ensures Finish(w, c, Melting(t)) == (Reclaim(w, t), NULL)
  {
    var (v, l) := Melt(w, t);
    if LeftIsFree(w, t) {
      var m := MeltLeft(w, t);
      assert Finish(w, c, Melting(t)) == Finish(m, c, UnfileLeft(l));
      assert Finish(m, c, UnfileLeft(l)) == Finish(v, c, Absorbing(l));
    } else {
      assert Finish(w, c, Melting(t)) == Finish(w, c, Absorbing(t));
    }
    FinishAbsorb(v, c, l);
  }

  /** The stages of free, uninterrupted, are free. */
  lemma FinishFree(w: World, c: Call)
    requires c.DoFree? && c.ptr != NULL
    ensures Finish(w, c, Enter) == (Free(w, c.ptr), NULL)
  {
    var t := c.ptr - HEADER;
    if At(w.tags, t).magic != MAGIC {
      assert Finish(w, c, Enter) == Finish(w, c, Leave(NULL));
    } else {
      assert Finish(w, c, Enter) == Finish(w, c, Melting(t));
      FinishMelt(w, c, t);
      FreeParts(w, t);
    }
  }
}
