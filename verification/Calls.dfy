/** malloc and free as functions of the state. */
module Calls {
  import opened Machine
  import opened PageSource
  import opened World
  import opened TagOps

  /** The fit test of malloc's search, in 32-bit arithmetic. */
  predicate Fits(t: Tag, size: int) {
    Wrap(t.realSize - HEADER) >= Wrap(size + HEADER)
  }

  /** The position of the first fitting tag of a list; its length when none fits. */
  function FirstFit(tags: map<int, Tag>, l: seq<int>, size: int): (k: nat)
    ensures k <= |l|
    ensures k < |l| ==> Fits(At(tags, l[k]), size)
    ensures forall j | 0 <= j < k :: !Fits(At(tags, l[j]), size)
  {
    if l == [] || Fits(At(tags, l[0]), size) then 0 else 1 + FirstFit(tags, l[1..], size)
  }

  /** What a split would leave for the new tag's payload, as the program computes it. */
  function Remainder(w: World, t: int): int {
    AsInt(Wrap(At(w.tags, t).realSize - At(w.tags, t).size - 2 * HEADER))
  }

  ghost predicate Splits(w: World, t: int) {
    Remainder(w, t) > 0 && Exp(Remainder(w, t)) >= 0
  }

  /** The last part of malloc: note the size and give back what is left over. */
  ghost function Place(w: World, t: int, size: int): World {
    var v := PutSize(w, t, size);
    if Splits(v, t) then SplitTag(v, t) else v
  }

  ghost function Recount(w: World, i: int, delta: int): World {
    if 0 <= i < |w.complete| then w.(complete := w.complete[i := w.complete[i] + delta]) else w
  }

  /** The tag malloc uses from the request's own list; NULL when no tag there fits. */
  ghost function Candidate(w: World, size: int): int {
    var i := Class(size);
    if i < |w.lists| then
      var k := FirstFit(w.tags, w.lists[i], size);
      if k < |w.lists[i]| then w.lists[i][k] else NULL
    else NULL
  }

  /** Take a listed tag out for use, and out of the count if it is a whole chunk. */
  ghost function Reuse(w: World, t: int): World {
    var v := RemoveTag(w, t);
    if Whole(At(v.tags, t)) then Recount(v, At(w.tags, t).index, -1) else v
  }

  lemma ReuseKeeps(w: World, t: int)
    ensures Reuse(w, t).owner == w.owner && Reuse(w, t).src == w.src
  {
    RemoveTagKeeps(w, t);
  }

  lemma SplitTagKeepsSource(w: World, t: int)
    ensures SplitTag(w, t).src == w.src
  {
    var cut, n := CutTag(w, t), Behind(t, At(w.tags, t).size);
    CutKeepsSource(w, t);
    InsertTagKeeps(cut, n, ClassOf(cut, n));
  }

  lemma PlaceKeepsSource(w: World, t: int, size: int)
    ensures Place(w, t, size).src == w.src
  {
    SplitTagKeepsSource(PutSize(w, t, size), t);
  }

  /** The first part of malloc: the tag to use, in no list; NULL when there is none to be had. */
  ghost function Obtain(w: World, size: int): (World, int) {
    var t := Candidate(w, size);
    if t != NULL then (Reuse(w, t), t)
    else if Allows(w.src, PagesFor(size)) then (NewTag(w, size), w.src.cur)
    else (w, NULL)
  }

  /** malloc: the new state and the payload pointer, NULL on failure. */
  ghost function Malloc(w: World, size: int): (World, int) {
    var (v, t) := Obtain(w, size);
    if t == NULL then (w, NULL) else (Place(v, t, size), t + HEADER)
  }

  lemma MallocParts(w: World, size: int, v: World, t: int)
    requires (v, t) == Obtain(w, size)
    ensures Malloc(w, size) == if t == NULL then (w, NULL) else (Place(v, t, size), t + HEADER)
  {
  }

  lemma ObtainParts(w: World, size: int, t: int)
    requires t == Candidate(w, size)
    ensures Obtain(w, size) ==
      if t != NULL then (Reuse(w, t), t)
      else if Allows(w.src, PagesFor(size)) then (NewTag(w, size), w.src.cur)
      else (w, NULL)
  {
  }

  // ----- free -----

  ghost predicate LeftIsFree(w: World, t: int) {
    At(w.tags, t).splitLeft != NULL && IsFree(w, At(w.tags, t).splitLeft)
  }

  ghost predicate RightIsFree(w: World, t: int) {
    At(w.tags, t).splitRight != NULL && IsFree(w, At(w.tags, t).splitRight)
  }

  /** One turn of the melt-left loop: the left neighbour swallows `t` and leaves its list. */
  ghost function MeltStep(w: World, t: int): World {
    RemoveTag(MeltLeft(w, t), At(w.tags, t).splitLeft)
  }

  /** The melt-left loop: at most one turn. */
  ghost function Melt(w: World, t: int): (World, int) {
    if LeftIsFree(w, t) then (MeltStep(w, t), At(w.tags, t).splitLeft) else (w, t)
  }

  /** The melt-right loop: at most one turn. */
  ghost function Absorb(w: World, t: int): World {
    if RightIsFree(w, t) then AbsorbRight(w, t) else w
  }

  lemma MeltKeepsSource(w: World, t: int)
    ensures Melt(w, t).0.src == w.src
  {
    RemoveTagKeeps(MeltLeft(w, t), At(w.tags, t).splitLeft);
  }

  lemma AbsorbKeepsSource(w: World, t: int)
    ensures Absorb(w, t).src == w.src
  {
    RemoveTagKeeps(w, At(w.tags, t).splitRight);
  }

  /** The page count free hands back for a whole chunk. */
  function PagesBack(realSize: int): int {
    Max(MIN_PAGES, realSize / PAGE + (if realSize % PAGE != 0 then 1 else 0))
  }

  /** The last part of free: keep the tag in its list, or return a surplus chunk. */
  ghost function Shelve(w: World, t: int): World {
    var g, i := At(w.tags, t), ClassOf(w, t);
    if !Whole(g) then InsertTag(w, t, i)
    else if 0 <= i < |w.complete| && w.complete[i] == MAX_COMPLETE then Release(w, t, PagesBack(g.realSize))
    else InsertTag(Recount(w, i, 1), t, i)
  }

  /** What free does with the tag of a live block. */
  ghost function Reclaim(w: World, t: int): World {
    var (v, l) := Melt(w, t);
    Shelve(Absorb(v, l), l)
  }

  /** free: nothing for NULL or where the magic word is missing. */
  ghost function Free(w: World, ptr: int): World {
    var t := ptr - HEADER;
    if ptr == NULL || At(w.tags, t).magic != MAGIC then w
    else Reclaim(w, t)
  }

  lemma FreeParts(w: World, t: int)
    requires At(w.tags, t).magic == MAGIC && t + HEADER != NULL
    ensures Free(w, t + HEADER) == Reclaim(w, t)
  {
  }

  /** realloc, as far as its malloc and its free go, and its result. What the copy between them can
      do to headers is the subject of Reallocation. */
  ghost function Realloc(w: World, ptr: int, size: int): (World, int) {
    if size == 0 then (Free(w, ptr), NULL)
    else if ptr == NULL then Malloc(w, size)
    else
      var (v, p) := Malloc(w, size);
      (Free(v, ptr), p)
  }

  lemma ReallocParts(w: World, ptr: int, size: int, v: World, p: int)
    requires (v, p) == Malloc(w, size) && size != 0 && ptr != NULL
    ensures Realloc(w, ptr, size) == (Free(v, ptr), p)
  {
  }

  lemma ReallocCases(w: World, ptr: int, size: int)
    ensures size == 0 ==> Realloc(w, ptr, size) == (Free(w, ptr), NULL)
    ensures size != 0 && ptr == NULL ==> Realloc(w, ptr, size) == Malloc(w, size)
  {
  }
}
