/** What each helper of liballoc.c does to the state, store by store. */
module TagOps {
  import opened Machine
  import opened PageSource
  import opened World

  // ----- one store through a tag pointer; a NULL pointer is not followed -----

  function Put(w: World, a: int, g: Tag): World {
    if a == NULL then w else w.(tags := w.tags[a := g])
  }

  function PutSize(w: World, a: int, v: int): World {
    Put(w, a, At(w.tags, a).(size := v))
  }

  function PutRealSize(w: World, a: int, v: int): World {
    Put(w, a, At(w.tags, a).(realSize := v))
  }

  function PutIndex(w: World, a: int, v: int): World {
    Put(w, a, At(w.tags, a).(index := v))
  }

  function PutLeft(w: World, a: int, v: int): World {
    Put(w, a, At(w.tags, a).(splitLeft := v))
  }

  function PutRight(w: World, a: int, v: int): World {
    Put(w, a, At(w.tags, a).(splitRight := v))
  }

  function PutNext(w: World, a: int, v: int): World {
    Put(w, a, At(w.tags, a).(next := v))
  }

  function PutPrev(w: World, a: int, v: int): World {
    Put(w, a, At(w.tags, a).(prev := v))
  }

  function PutHead(w: World, i: int, v: int): World {
    if 0 <= i < |w.heads| then w.(heads := w.heads[i := v]) else w
  }

  function HeadOf(w: World, i: int): int {
    if 0 <= i < |w.heads| then w.heads[i] else NULL
  }

  // ----- bookkeeping -----

  /** The header at `t` is no longer in use. */
  function Disown(w: World, t: int): World {
    w.(owner := w.owner - {t})
  }

  ghost function Without<T>(l: seq<T>, x: T): seq<T> {
    if x in l then
      var k :| 0 <= k < |l| && l[k] == x;
      l[..k] + l[k + 1..]
    else l
  }

  /** The header at `t` is in use from now on, in the chunk at `base`. */
  function Own(w: World, t: int, base: int): World {
    w.(owner := w.owner[t := base])
  }

  function ChunkOf(w: World, t: int): int {
    if t in w.owner then w.owner[t] else NULL
  }

  /** The contents of list i become `l`. */
  function Relist(w: World, i: int, l: seq<int>): World {
    if 0 <= i < |w.lists| then w.(lists := w.lists[i := l]) else w
  }

  function ListOf(w: World, i: int): seq<int> {
    if 0 <= i < |w.lists| then w.lists[i] else []
  }

  // ----- the helpers -----

  /** The tag goes to the front of list i. */
  function Link(w: World, t: int, i: int): World {
    var head := HeadOf(w, i);
    PutHead(if head != NULL then PutNext(PutPrev(w, head, t), t, head) else w, i, t)
  }

  /** insert_tag with a given list. The tag's own links are left as they are. */
  ghost function InsertTag(w: World, t: int, i: int): World {
    Relist(Link(PutIndex(w, t, i), t, i), i, [t] + ListOf(w, i))
  }

  /** The first half of remove_tag: the list closes over the tag. */
  function Unlink(w: World, t: int): World {
    var g := At(w.tags, t);
    var w1 := if HeadOf(w, g.index) == t then PutHead(w, g.index, g.next) else w;
    PutPrev(PutNext(w1, g.prev, g.next), g.next, g.prev)
  }

  /** The second half: the tag forgets the list. */
  function ClearLinks(w: World, t: int): World {
    PutIndex(PutPrev(PutNext(w, t, NULL), t, NULL), t, -1)
  }

  ghost function RemoveTag(w: World, t: int): World {
    var i := At(w.tags, t).index;
    Relist(ClearLinks(Unlink(w, t), t), i, Without(ListOf(w, i), t))
  }

  lemma UnlinkKeeps(w: World, t: int)
    ensures Unlink(w, t).owner == w.owner && Unlink(w, t).src == w.src
  {
  }

  lemma ClearLinksKeeps(w: World, t: int)
    ensures ClearLinks(w, t).owner == w.owner && ClearLinks(w, t).src == w.src
  {
  }

  /** Filing and unfiling leave the chunks and the page source alone. */
  lemma RemoveTagKeeps(w: World, t: int)
    ensures RemoveTag(w, t).owner == w.owner && RemoveTag(w, t).src == w.src
  {
    UnlinkKeeps(w, t);
    ClearLinksKeeps(Unlink(w, t), t);
  }

  lemma InsertTagKeeps(w: World, t: int, i: int)
    ensures InsertTag(w, t, i).owner == w.owner && InsertTag(w, t, i).src == w.src
  {
  }

  /** `l` takes over the bytes and the right link of its right neighbour `t`, whose header is
      no longer in use: the common part of melt_left and absorb_right. */
  function Swallow(w: World, l: int, t: int): World {
    var g := At(w.tags, t);
    var w1 := PutRealSize(w, l, At(w.tags, l).realSize + g.realSize);
    Disown(PutLeft(PutRight(w1, l, g.splitRight), g.splitRight, l), t)
  }

  lemma SwallowParts(w: World, l: int, t: int, size: int, r: int)
    requires size == At(w.tags, l).realSize + At(w.tags, t).realSize && r == At(w.tags, t).splitRight
    ensures Swallow(w, l, t) == Disown(PutLeft(PutRight(PutRealSize(w, l, size), l, r), r, l), t)
  {
  }

  function MeltLeft(w: World, t: int): World {
    Swallow(w, At(w.tags, t).splitLeft, t)
  }

  /** The free right neighbour leaves its list first. */
  ghost function AbsorbRight(w: World, t: int): World {
    var r := At(w.tags, t).splitRight;
    Swallow(RemoveTag(w, r), t, r)
  }

  /** The header split_tag writes behind `t`'s payload. Its size and index start as 0 and -1
      here; the program leaves both words unset. */
  function RestOf(w: World, t: int): Tag {
    var g := At(w.tags, t);
    Tag(MAGIC, 0, Wrap(g.realSize - HEADER - g.size), -1, t, g.splitRight, NULL, NULL)
  }

  /** The address behind a payload, where split_tag puts the new header. */
  function Behind(t: int, size: int): int {
    Wrap(t + HEADER + size)
  }

  /** The new right neighbour of `t`, before it is filed: everything past `t`'s payload. */
  function CutTag(w: World, t: int): World {
    var g, rest := At(w.tags, t), RestOf(w, t);
    var n := Behind(t, g.size);
    var w1 := Own(Put(w, n, rest), n, ChunkOf(w, t));
    PutRight(PutRealSize(PutLeft(w1, g.splitRight, n), t, g.realSize - rest.realSize), t, n)
  }

  lemma CutKeepsSource(w: World, t: int)
    ensures CutTag(w, t).src == w.src
  {
  }

  lemma CutKeepsHeads(w: World, t: int)
    ensures CutTag(w, t).heads == w.heads
  {
  }

  lemma CutParts(w: World, t: int, n: int, rest: Tag, r: int, size: int, base: int)
    requires var g := At(w.tags, t);
      && n == Behind(t, g.size) && r == g.splitRight && base == ChunkOf(w, t) && rest == RestOf(w, t)
      && size == g.realSize - rest.realSize
    ensures CutTag(w, t) == PutRight(PutRealSize(PutLeft(Own(Put(w, n, rest), n, base), r, n), t, size), t, n)
  {
  }

  /** insert_tag with index -1 chooses the list by size. */
  function ClassOf(w: World, t: int): int {
    Class(Wrap(At(w.tags, t).realSize - HEADER))
  }

  /** The list insert_tag files a tag under: the given one, or for a negative index that of its size. */
  function IndexFor(w: World, t: int, index: int): int {
    if index < 0 then ClassOf(w, t) else index
  }

  ghost function SplitTag(w: World, t: int): World {
    var cut, n := CutTag(w, t), Behind(t, At(w.tags, t).size);
    InsertTag(cut, n, ClassOf(cut, n))
  }

  lemma SplitIs(w: World, t: int, cut: World, n: int)
    requires cut == CutTag(w, t) && n == Behind(t, At(w.tags, t).size)
    ensures SplitTag(w, t) == InsertTag(cut, n, ClassOf(cut, n))
  {
  }

  // ----- a new chunk -----

  /** The page count allocate_new_tag asks for, in 32-bit arithmetic. */
  function PagesFor(size: int): int {
    var usage := Wrap(size + HEADER);
    Max(MIN_PAGES, usage / PAGE + (if usage % PAGE != 0 then 1 else 0))
  }

  /** The bytes a request needs in unbounded arithmetic: whole pages, at least sixteen. */
  function Need(size: int): int {
    Max(MIN_PAGES * PAGE, (size + HEADER + PAGE - 1) / PAGE * PAGE)
  }

  /** The new chunk as one tag; its address is the old cursor. */
  function NewTag(w: World, size: int): World {
    var pages, t := PagesFor(size), w.src.cur;
    var w1 := Put(w.(src := Take(w.src, pages)), t,
                  Tag(MAGIC, size, Wrap(pages * PAGE), -1, NULL, NULL, NULL, NULL));
    Own(w1, t, t)
  }

  /** A whole free chunk goes back to the page source. */
  function Release(w: World, t: int, pages: int): World {
    w.(src := GiveBack(w.src, t, pages), owner := w.owner - {t})
  }
}
