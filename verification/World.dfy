/** The state liballoc.c keeps, read as values: every tag header by its address, the 32
    free-list heads and counters, and the page source. `owner` and `lists` are bookkeeping:
    the chunk each tag in use belongs to, and the contents of each free list in order. */
module World {
  import opened Machine
  import opened PageSource

  datatype Tag = Tag(magic: int, size: int, realSize: int, index: int,
                     splitLeft: int, splitRight: int, next: int, prev: int)

  datatype World = World(tags: map<int, Tag>, heads: seq<int>, complete: seq<int>, src: Source,
                         owner: map<int, int>, lists: seq<seq<int>>)

  /** The header at an address; the zero header where there is none. */
  function At(tags: map<int, Tag>, a: int): Tag {
    if a in tags then tags[a] else Tag(0, 0, 0, 0, 0, 0, 0, 0)
  }

  predicate Whole(t: Tag) {
    t.splitLeft == NULL && t.splitRight == NULL
  }

  predicate IsFree(w: World, a: int) {
    At(w.tags, a).index >= 0
  }

  predicate IsLive(w: World, a: int) {
    a in w.owner && At(w.tags, a).index == -1
  }

  // ----- the size class -----

  function Log2(n: int): (r: nat)
    decreases n
  {
    if n < 2 then 0 else 1 + Log2(n / 2)
  }

  /** The exponent of a size: -1 below the quantum of 256 bytes. */
  function Exp(size: int): int {
    if size < 256 then -1 else Log2(size)
  }

  /** The list a tag with this much room is filed under, and a request of this size searches. */
  function Class(size: int): int {
    Max(MIN_EXP, Exp(size))
  }

  lemma {:induction false} Log2Brackets(n: int)
    requires n >= 1
    ensures Pow2(Log2(n)) <= n < 2 * Pow2(Log2(n))
    decreases n
  {
    if n >= 2 {
      Log2Brackets(n / 2);
    }
  }

  /** The bracket determines the exponent. */
  lemma Log2Unique(n: int, r: nat)
    requires n >= 1 && Pow2(r) <= n < 2 * Pow2(r)
    ensures Log2(n) == r
  {
    Log2Brackets(n);
    if r < Log2(n) {
      Pow2Monotone(r, Log2(n));
    } else if Log2(n) < r {
      Pow2Monotone(Log2(n), r);
    }
  }

  lemma Powers()
    ensures Pow2(8) == 256 && Pow2(30) == 0x4000_0000 && Pow2(31) == TWO31 && Pow2(32) == TWO32
  {
    assert Pow2(4) == 16;
    assert Pow2(8) == 256;
    assert Pow2(12) == 4096;
    assert Pow2(16) == 65536;
    assert Pow2(20) == 0x10_0000;
    assert Pow2(24) == 0x100_0000;
    assert Pow2(28) == 0x1000_0000;
    assert Pow2(30) == 0x4000_0000;
  }

  lemma ClassRange(n: int)
    requires n < TWO32
    ensures MIN_EXP <= Class(n) < MAX_EXP
    ensures n < TWO31 ==> Class(n) <= 30
    ensures n >= TWO31 ==> Class(n) == 31
  {
    Powers();
    if n >= 256 {
      Log2Brackets(n);
      if Log2(n) < 8 {
        Pow2Monotone(Log2(n), 8);
      }
      if 32 < Log2(n) {
        Pow2Monotone(32, Log2(n));
      }
      if n >= TWO31 && Log2(n) < 31 {
        Pow2Monotone(Log2(n), 31);
      }
    }
  }

  /** Sizes below 512 share one class; above, each class is one doubling. */
  lemma ClassExactly(n: int)
    requires n < TWO32
    ensures n < 512 ==> Class(n) == 8
    ensures 512 <= n ==> 9 <= Class(n) <= 31 && Pow2(Class(n)) <= n < 2 * Pow2(Class(n))
  {
    ClassRange(n);
    Powers();
    if 256 <= n < 512 {
      Log2Unique(n, 8);
    } else if 512 <= n {
      assert Pow2(9) == 512;
      Log2Brackets(n);
      if Log2(n) < 9 {
        Pow2Monotone(Log2(n), 9);
      }
    }
  }

  // ----- the invariant -----

  /** A tag fills its place in its chunk and its split links agree with its neighbours. */
  ghost predicate TagTiles(w: World, a: int)
    requires a in w.owner && a in w.tags && w.owner[a] in w.src.held
  {
    var t, base := w.tags[a], w.owner[a];
    var limit := base + PAGE * w.src.held[base];
    && t.magic == MAGIC
    && base <= a && HEADER <= t.realSize && a + t.realSize <= limit
    && (t.splitLeft == NULL <==> a == base)
    && (t.splitRight == NULL <==> a + t.realSize == limit)
    && (t.splitLeft != NULL ==>
          t.splitLeft in w.owner && w.owner[t.splitLeft] == base
          && At(w.tags, t.splitLeft).splitRight == a)
    && (t.splitRight != NULL ==>
          t.splitRight == a + t.realSize && t.splitRight in w.owner && w.owner[t.splitRight] == base
          && At(w.tags, t.splitRight).splitLeft == a)
  }

  /** Every tag in use has a header in memory, and none is at NULL. */
  ghost predicate Present(w: World) {
    w.owner.Keys <= w.tags.Keys && NULL !in w.tags
  }

  ghost predicate Placed(w: World) {
    && Present(w)
    && (forall a | a in w.owner :: w.owner[a] in w.src.held)
    && (forall b | b in w.src.held :: b in w.owner && w.owner[b] == b)
  }

  ghost predicate Clear(w: World, a: int, b: int) {
    a < b ==> a + At(w.tags, a).realSize <= b
  }

  ghost predicate Separate(w: World) {
    forall a, b {:trigger Clear(w, a, b)} | a in w.owner && b in w.owner :: Clear(w, a, b)
  }

  /** The tags of every held chunk tile it. */
  ghost predicate Tiling(w: World) {
    && SourceOk(w.src)
    && Placed(w)
    && (forall a {:trigger TagTiles(w, a)} | a in w.owner :: TagTiles(w, a))
    && Separate(w)
  }

  /** The k-th tag of list i: its index, and its links to the tags before and after it. */
  ghost predicate Node(w: World, i: int, k: int)
    requires 0 <= i < |w.lists| && 0 <= k < |w.lists[i]|
  {
    var l := w.lists[i];
    && l[k] in w.owner
    && At(w.tags, l[k]).index == i
    && At(w.tags, l[k]).next == (if k + 1 < |l| then l[k + 1] else NULL)
    && At(w.tags, l[k]).prev == (if 0 < k then l[k - 1] else NULL)
  }

  /** List i is a NULL-terminated doubly linked list without repetition, all of index i. */
  ghost predicate IsList(w: World, i: int)
    requires 0 <= i < |w.lists| && i < |w.heads|
  {
    var l := w.lists[i];
    && w.heads[i] == (if l == [] then NULL else l[0])
    && (forall k | 0 <= k < |l| :: Node(w, i, k))
    && (forall j, k | 0 <= j < k < |l| :: l[j] != l[k])
  }

  /** A tag is either filed in the list of its index, or in no list and with clear links. */
  ghost predicate Filed(w: World, a: int)
    requires |w.lists| == MAX_EXP
  {
    var t := At(w.tags, a);
    || (t.index == -1 && t.next == NULL && t.prev == NULL)
    || (MIN_EXP <= t.index < MAX_EXP && a in w.lists[t.index])
  }

  ghost predicate Lists(w: World) {
    && |w.lists| == |w.heads| == MAX_EXP
    && (forall i | 0 <= i < MAX_EXP :: IsList(w, i))
    && (forall a | a in w.owner :: Filed(w, a))
  }

  /** A free tag is filed by its size; a live one wastes at most 319 bytes. */
  ghost predicate WellSized(t: Tag) {
    if t.index == -1 then 0 <= t.size && t.size + HEADER <= t.realSize <= t.size + 319
    else t.index == Class(t.realSize - HEADER)
  }

  /** `x` is the tag an operation is working on, exempt for now; NULL when there is none. */
  ghost predicate Sized(w: World, x: int) {
    forall a | a in w.owner && a != x :: WellSized(At(w.tags, a))
  }

  /** `a` and its right neighbour are not both free, counting `x` as free. */
  ghost predicate NotBothFree(w: World, a: int, x: int) {
    var r := At(w.tags, a).splitRight;
    r != NULL ==> !((IsFree(w, a) || a == x) && (IsFree(w, r) || r == x))
  }

  /** No two neighbours are both free, counting `x` as free. */
  ghost predicate Coalesced(w: World, x: int) {
    forall a {:trigger NotBothFree(w, a, x)} | a in w.owner :: NotBothFree(w, a, x)
  }

  /** No two neighbours are both free, pairs with `x` aside. */
  ghost predicate CoalescedAway(w: World, x: int) {
    forall a {:trigger NotBothFree(w, a, NULL)} | a in w.owner && a != x && At(w.tags, a).splitRight != x ::
      NotBothFree(w, a, NULL)
  }

  /** The tags of list i that are a whole chunk. */
  ghost function Wholes(w: World, i: int): set<int> {
    set a | a in w.owner && At(w.tags, a).index == i && Whole(At(w.tags, a))
  }

  ghost predicate Counts(w: World) {
    && |w.complete| == MAX_EXP
    && (forall i | 0 <= i < MAX_EXP :: w.complete[i] == |Wholes(w, i)| <= MAX_COMPLETE)
  }

  ghost predicate Inv(w: World) {
    Tiling(w) && Lists(w) && Sized(w, NULL) && Coalesced(w, NULL) && Counts(w)
  }

  /** The live blocks, leaving out the tag an operation is working on. */
  ghost function LiveBut(w: World, x: int): map<int, int> {
    map a | a in w.owner && a != x && At(w.tags, a).index == -1 :: At(w.tags, a).size
  }

  /** The abstract allocator: the size of each live block, by the address of its header.
      The block handed out is the `size` bytes from address + HEADER on. */
  ghost function Live(w: World): map<int, int> {
    LiveBut(w, NULL)
  }

  /** Before the first call: nothing held, all globals zero. */
  function Initial(start: int, end: int): World {
    World(map[], seq(MAX_EXP, _ => NULL), seq(MAX_EXP, _ => 0), Fresh(start, end),
          map[], seq(MAX_EXP, _ => []))
  }

  lemma InitialInv(start: int, end: int)
    requires 0 < start < end < TWO31
    ensures Inv(Initial(start, end)) && Live(Initial(start, end)) == map[]
  {
    var w := Initial(start, end);
    assert Sum(w.src.held) == 0;
    forall i | 0 <= i < MAX_EXP ensures Wholes(w, i) == {} {}
  }
}
