/** liballoc.c over tag records in memory that point at each other. */
module LibAlloc {
  import opened Machine
  import opened PageSource
  import opened World
  import opened MallocLemmas
  import opened Memory
  import opened Runs
  import opened Reallocation
  import opened Outcomes
  import opened Readiness
  import Ops = TagOps
  import Spec = Calls

  /** struct boundary_tag, at a fixed address. */
  class BoundaryTag {
    const addr: int
    var magic: int
    var size: int
    var realSize: int
    var index: int
    var splitLeft: BoundaryTag?
    var splitRight: BoundaryTag?
    var next: BoundaryTag?
    var prev: BoundaryTag?

    constructor (addr: int)
      ensures this.addr == addr && Value() == Tag(0, 0, 0, -1, NULL, NULL, NULL, NULL)
    {
      this.addr := addr;
      magic, size, realSize, index := 0, 0, 0, -1;
      splitLeft, splitRight, next, prev := null, null, null, null;
    }

    /** The record with its pointers as addresses. */
    ghost function Value(): Tag
      reads this
    {
      Tag(magic, size, realSize, index, Addr(splitLeft), Addr(splitRight), Addr(next), Addr(prev))
    }
  }

  function Addr(t: BoundaryTag?): int {
    if t == null then NULL else t.addr
  }

  /** rise.c's globals. */
  class Pages {
    const start: int
    const end: int
    var cur: int
    ghost var held: map<int, int>
    ghost var granted: seq<Grant>
    ghost var returned: seq<Grant>

    constructor (start: int, end: int)
      ensures Value() == Fresh(start, end)
    {
      this.start, this.end, cur := start, end, start;
      held, granted, returned := map[], [], [];
    }

    ghost function Value(): Source
      reads this
    {
      Source(start, end, cur, held, granted, returned)
    }

    /** liballoc_alloc, NULL when the heap would run out. */
    method Alloc(pages: int) returns (base: int)
      modifies this
      ensures Value() == if Allows(old(Value()), pages) then Take(old(Value()), pages) else old(Value())
      ensures base == if Allows(old(Value()), pages) then old(cur) else NULL
    {
      var size := Wrap(pages * PAGE);
      if AsInt(Wrap(size + cur)) >= AsInt(end) {
        return NULL;
      }
      held, granted := held[cur := pages], granted + [Grant(cur, pages)];
      base := cur;
      cur := Wrap(cur + size);
    }

    /** liballoc_free: the cursor stays where it is. */
    method Free(base: int, pages: int)
      modifies this
      ensures Value() == GiveBack(old(Value()), base, pages)
    {
      held, returned := held - {base}, returned + [Grant(base, pages)];
    }
  }

  /** getexp */
  method GetExp(size: int) returns (n: int)
    requires 0 <= size < TWO32
    ensures n == Exp(size) && (size < 256 ==> n == -1)
    ensures size >= 256 ==> MIN_EXP <= n < MAX_EXP && Pow2(n) <= size < Pow2(n + 1)
  {
    Powers();
    if size < Pow2(MIN_EXP) {
      return -1;
    }
    var shift := MIN_EXP;
    while shift < MAX_EXP
      invariant MIN_EXP <= shift <= MAX_EXP && (shift > MIN_EXP ==> Pow2(shift - 1) <= size)
    {
      if Pow2(shift) > size {
        break;
      }
      shift := shift + 1;
    }
    Log2Unique(size, shift - 1);
    return shift - 1;
  }

  /** The list for a size: getexp, but never below the first list in use. */
  method ListFor(size: int) returns (i: int)
    requires 0 <= size < TWO32
    ensures i == Class(size) && MIN_EXP <= i < MAX_EXP
  {
    i := GetExp(size);
    if i < MIN_EXP {
      i := MIN_EXP;
    }
  }

  class Allocator {
    /** Memory, where it has been written as a tag header. */
    var tags: map<int, BoundaryTag>
    const freePages: array<BoundaryTag?>
    const completePages: array<int>
    const pages: Pages
    /** Memory as bytes, up to the end of the heap. */
    const bytes: array<byte>
    var initialized: bool

    /** The state as a value; Synced says that it mirrors the records. */
    ghost var w: World
    /** Every record ever written. */
    ghost var repr: set<BoundaryTag>

    /** A pointer is NULL or leads to the record that memory holds at its address. */
    ghost predicate Known(p: BoundaryTag?)
      reads this
    {
      p != null ==> p.addr in tags && tags[p.addr] == p
    }

    /** The record at an address holds the value `w` has there; the links of a tag in use are known. */
    ghost predicate Mirrored(a: int)
      requires a in tags && a in w.tags && tags[a] in repr
      reads this, repr
    {
      && tags[a].addr == a && tags[a].Value() == w.tags[a]
      && (a in w.owner ==>
            Known(tags[a].splitLeft) && Known(tags[a].splitRight) && Known(tags[a].next) && Known(tags[a].prev))
    }

    /** The record of a tag in use. */
    ghost predicate Held(t: BoundaryTag)
      reads this
    {
      Known(t) && t.addr in w.owner
    }

    ghost predicate Synced()
      reads this, freePages, completePages, pages, repr
    {
      && NULL !in tags && tags.Keys == w.tags.Keys && w.owner.Keys <= tags.Keys
      && (forall a | a in tags :: tags[a] in repr)
      && (forall a {:trigger Mirrored(a)} | a in tags :: Mirrored(a))
      && freePages.Length == completePages.Length == MAX_EXP == |w.heads|
      && (forall i | 0 <= i < MAX_EXP :: Known(freePages[i]) && Addr(freePages[i]) == w.heads[i])
      && completePages[..] == w.complete
      && pages.Value() == w.src
    }

    /** The arrays have been set up, or need not be. */
    ghost predicate Started()
      reads this
    {
      initialized || Untouched(w)
    }

    /** The bytes reach up to the end of the heap, in an array of their own. */
    ghost predicate Laid() {
      bytes.Length == pages.end && bytes as object != freePages && bytes as object != completePages
    }

    ghost predicate Valid()
      reads this, freePages, completePages, pages, repr
    {
      Synced() && Inv(w) && Started() && Laid()
    }

    constructor (start: int, end: int)
      requires 0 < start < end < TWO31
      ensures Valid() && w == Initial(start, end)
      ensures fresh(freePages) && fresh(completePages) && fresh(pages) && fresh(bytes) && fresh(repr)
    {
      initialized, tags, repr := false, map[], {};
      freePages := new BoundaryTag?[MAX_EXP](_ => null);
      completePages := new int[MAX_EXP](_ => 0);
      pages := new Pages(start, end);
      bytes := new byte[end];
      w := Initial(start, end);
      InitialInv(start, end);
    }

    /** No record and no header value has changed since the old state. */
    twostate lemma StillMirrored()
      requires old(Synced()) && tags == old(tags) && repr == old(repr) && unchanged(repr)
      requires w.tags == old(w.tags) && w.owner.Keys <= old(w.owner.Keys)
      ensures forall a {:trigger Mirrored(a)} | a in tags :: Mirrored(a)
    {
      forall a | a in tags
        ensures Mirrored(a)
      {
        assert old(Mirrored(a));
      }
    }

    // ----- one store each -----

    method PutNext(t: BoundaryTag, v: BoundaryTag?)
      requires Synced() && Known(t) && Known(v)
      modifies t`next, this`w
      ensures Synced() && w == Ops.PutNext(old(w), t.addr, Addr(v))
    {
      t.next := v;
      w := Ops.PutNext(w, t.addr, Addr(v));
      forall a | a in tags
        ensures Mirrored(a)
      {
        assert old(Mirrored(a));
      }
    }

    method PutPrev(t: BoundaryTag, v: BoundaryTag?)
      requires Synced() && Known(t) && Known(v)
      modifies t`prev, this`w
      ensures Synced() && w == Ops.PutPrev(old(w), t.addr, Addr(v))
    {
      t.prev := v;
      w := Ops.PutPrev(w, t.addr, Addr(v));
      forall a | a in tags
        ensures Mirrored(a)
      {
        assert old(Mirrored(a));
      }
    }

    method PutLeft(t: BoundaryTag, v: BoundaryTag?)
      requires Synced() && Known(t) && Known(v)
      modifies t`splitLeft, this`w
      ensures Synced() && w == Ops.PutLeft(old(w), t.addr, Addr(v))
    {
      t.splitLeft := v;
      w := Ops.PutLeft(w, t.addr, Addr(v));
      forall a | a in tags
        ensures Mirrored(a)
      {
        assert old(Mirrored(a));
      }
    }

    method PutRight(t: BoundaryTag, v: BoundaryTag?)
      requires Synced() && Known(t) && Known(v)
      modifies t`splitRight, this`w
      ensures Synced() && w == Ops.PutRight(old(w), t.addr, Addr(v))
    {
      t.splitRight := v;
      w := Ops.PutRight(w, t.addr, Addr(v));
      forall a | a in tags
        ensures Mirrored(a)
      {
        assert old(Mirrored(a));
      }
    }

    method PutSize(t: BoundaryTag, v: int)
      requires Synced() && Known(t)
      modifies t`size, this`w
      ensures Synced() && w == Ops.PutSize(old(w), t.addr, v)
    {
      t.size := v;
      w := Ops.PutSize(w, t.addr, v);
      forall a | a in tags
        ensures Mirrored(a)
      {
        assert old(Mirrored(a));
      }
    }

    method PutRealSize(t: BoundaryTag, v: int)
      requires Synced() && Known(t)
      modifies t`realSize, this`w
      ensures Synced() && w == Ops.PutRealSize(old(w), t.addr, v)
    {
      t.realSize := v;
      w := Ops.PutRealSize(w, t.addr, v);
      forall a | a in tags
        ensures Mirrored(a)
      {
        assert old(Mirrored(a));
      }
    }

    method PutIndex(t: BoundaryTag, v: int)
      requires Synced() && Known(t)
      modifies t`index, this`w
      ensures Synced() && w == Ops.PutIndex(old(w), t.addr, v)
    {
      t.index := v;
      w := Ops.PutIndex(w, t.addr, v);
      forall a | a in tags
        ensures Mirrored(a)
      {
        assert old(Mirrored(a));
      }
    }

    method PutHead(i: int, v: BoundaryTag?)
      requires Synced() && 0 <= i < MAX_EXP && Known(v)
      modifies freePages, this`w
      ensures Synced() && w == Ops.PutHead(old(w), i, Addr(v))
    {
      freePages[i] := v;
      w := Ops.PutHead(w, i, Addr(v));
      StillMirrored();
    }

    method AddToCount(i: int, delta: int)
      requires Synced() && 0 <= i < MAX_EXP
      modifies completePages, this`w
      ensures Synced() && w == Spec.Recount(old(w), i, delta)
    {
      completePages[i] := completePages[i] + delta;
      w := Spec.Recount(w, i, delta);
      StillMirrored();
    }

    ghost method Disown(a: int)
      requires Synced()
      modifies this`w
      ensures Synced() && w == Ops.Disown(old(w), a)
    {
      w := Ops.Disown(w, a);
      StillMirrored();
    }

    ghost method Refile(i: int, l: seq<int>)
      requires Synced()
      modifies this`w
      ensures Synced() && w == Ops.Relist(old(w), i, l)
    {
      w := Ops.Relist(w, i, l);
      StillMirrored();
    }

    /** Memory at a new record's address now reads as that record. */
    method Write(t: BoundaryTag)
      requires Synced() && t.addr != NULL && t !in repr
      requires t.addr !in w.owner && NoLinkTo(w, t.addr)
      modifies this`tags, this`repr, this`w
      ensures tags == old(tags)[t.addr := t] && repr == old(repr) + {t}
      ensures Synced() && w == Ops.Put(old(w), t.addr, t.Value())
    {
      tags, repr := tags[t.addr := t], repr + {t};
      w := Ops.Put(w, t.addr, t.Value());
      forall a | a in tags
        ensures Mirrored(a)
      {
        assert a != t.addr ==> old(Mirrored(a));
      }
    }

    /** The tag at `a` is in use from now on, in the chunk at `base`. */
    ghost method Own(a: int, base: int)
      requires Synced() && a in tags
      requires Known(tags[a].splitLeft) && Known(tags[a].splitRight) && tags[a].next == null && tags[a].prev == null
      modifies this`w
      ensures Synced() && w == Ops.Own(old(w), a, base)
    {
      w := Ops.Own(w, a, base);
      forall b | b in tags
        ensures Mirrored(b)
      {
        assert old(Mirrored(b));
      }
    }

    method Install(t: BoundaryTag, ghost base: int)
      requires Synced() && t.addr != NULL && t !in repr
      requires t.addr !in w.owner && NoLinkTo(w, t.addr)
      requires Known(t.splitLeft) && Known(t.splitRight) && t.next == null && t.prev == null
      requires Addr(t.splitLeft) != t.addr && Addr(t.splitRight) != t.addr
      modifies this`tags, this`repr, this`w
      ensures tags == old(tags)[t.addr := t] && repr == old(repr) + {t}
      ensures Synced() && w == Ops.Own(Ops.Put(old(w), t.addr, t.Value()), t.addr, base)
    {
      Write(t);
      Own(t.addr, base);
    }

    // ----- the helpers -----

    /** The neighbours in the list are two further records. */
    ghost predicate Unaliased(tag: BoundaryTag)
      reads tag
    {
      && 0 <= tag.index < MAX_EXP && tag.next != tag && tag.prev != tag
      && (tag.next != null ==> tag.next != tag.prev)
    }

    method Unlink(tag: BoundaryTag)
      requires Synced() && Unaliased(tag) && Held(tag)
      modifies this`w, freePages, repr
      ensures Synced() && w == Ops.Unlink(old(w), tag.addr) && tag.index == old(tag.index)
    {
      assert Mirrored(tag.addr);
      if freePages[tag.index] == tag {
        PutHead(tag.index, tag.next);
      }
      if tag.prev != null {
        PutNext(tag.prev, tag.next);
      }
      if tag.next != null {
        PutPrev(tag.next, tag.prev);
      }
    }

    method ClearLinks(tag: BoundaryTag)
      requires Synced() && Known(tag)
      modifies this`w, tag
      ensures Synced() && w == Ops.ClearLinks(old(w), tag.addr)
    {
      PutNext(tag, null);
      PutPrev(tag, null);
      PutIndex(tag, -1);
    }

    method RemoveTag(tag: BoundaryTag)
      requires Synced() && Unaliased(tag) && Held(tag)
      modifies this`w, freePages, repr
      ensures Synced() && w == Ops.RemoveTag(old(w), tag.addr)
    {
      assert Mirrored(tag.addr);
      ghost var i, l := tag.index, Ops.Without(Ops.ListOf(w, tag.index), tag.addr);
      Unlink(tag);
      ClearLinks(tag);
      Refile(i, l);
    }

    method Link(tag: BoundaryTag, i: int)
      requires Synced() && Held(tag) && 0 <= i < MAX_EXP && Ops.HeadOf(w, i) != tag.addr
      modifies this`w, freePages, repr
      ensures Synced() && w == Ops.Link(old(w), tag.addr, i)
    {
      if freePages[i] != null {
        PutPrev(freePages[i], tag);
        PutNext(tag, freePages[i]);
      }
      PutHead(i, tag);
    }

    method FileUnder(tag: BoundaryTag, i: int)
      requires Synced() && Held(tag) && 0 <= i < MAX_EXP && Ops.HeadOf(w, i) != tag.addr
      modifies this`w, freePages, repr
      ensures Synced() && w == Ops.InsertTag(old(w), tag.addr, i)
    {
      ghost var l := [tag.addr] + Ops.ListOf(w, i);
      PutIndex(tag, i);
      Link(tag, i);
      Refile(i, l);
    }

    /** insert_tag: a negative index asks for the list of the tag's size. */
    method InsertTag(tag: BoundaryTag, index: int)
      requires Synced() && Held(tag) && index < MAX_EXP
      requires Ops.HeadOf(w, Ops.IndexFor(w, tag.addr, index)) != tag.addr
      modifies this`w, freePages, repr
      ensures Synced()
      ensures w == Ops.InsertTag(old(w), tag.addr, Ops.IndexFor(old(w), tag.addr, index))
    {
      var realIndex := index;
      if index < 0 {
        assert Mirrored(tag.addr);
        realIndex := ListFor(Wrap(tag.realSize - HEADER));
      }
      FileUnder(tag, realIndex);
    }

    /** The right neighbour, if there is one, gets a new left neighbour. */
    method Attach(right: BoundaryTag?, left: BoundaryTag)
      requires Synced() && Known(right) && Known(left)
      modifies this`w, repr
      ensures Synced() && w == Ops.PutLeft(old(w), Addr(right), left.addr)
    {
      if right != null {
        PutLeft(right, left);
      }
    }

    method Widen(tag: BoundaryTag, realSize: int, right: BoundaryTag?)
      requires Synced() && Known(tag) && Known(right)
      modifies this`w, tag
      ensures Synced() && w == Ops.PutRight(Ops.PutRealSize(old(w), tag.addr, realSize), tag.addr, Addr(right))
    {
      PutRealSize(tag, realSize);
      PutRight(tag, right);
    }

    method Swallow(left: BoundaryTag, tag: BoundaryTag)
      requires Synced() && Held(left) && Held(tag) && left != tag
      modifies this`w, repr
      ensures Synced() && w == Ops.Swallow(old(w), left.addr, tag.addr)
    {
      assert Mirrored(tag.addr) && Mirrored(left.addr);
      var size, right := left.realSize + tag.realSize, tag.splitRight;
      Ops.SwallowParts(w, left.addr, tag.addr, size, Addr(right));
      Widen(left, size, right);
      Attach(right, left);
      Disown(tag.addr);
    }

    method MeltLeft(tag: BoundaryTag) returns (left: BoundaryTag)
      requires Synced() && Held(tag) && tag.splitLeft != null && tag.splitLeft != tag && Held(tag.splitLeft)
      modifies this`w, repr
      ensures Synced() && left == old(tag.splitLeft)
      ensures w == Ops.MeltLeft(old(w), tag.addr)
    {
      assert Mirrored(tag.addr);
      left := tag.splitLeft;
      Swallow(left, tag);
    }

    method AbsorbRight(tag: BoundaryTag)
      requires Synced() && Held(tag) && tag.splitRight != null && tag.splitRight != tag
      requires Held(tag.splitRight) && Unaliased(tag.splitRight)
      modifies this`w, freePages, repr
      ensures Synced() && w == Ops.AbsorbRight(old(w), tag.addr)
    {
      assert Mirrored(tag.addr);
      var right := tag.splitRight;
      RemoveTag(right);
      Swallow(tag, right);
    }

    // ----- splitting, and a new chunk -----

    /** The new record of a split, with the fields split_tag sets. */
    method MakeRest(tag: BoundaryTag) returns (rest: BoundaryTag)
      ensures fresh(rest) && rest.splitRight == tag.splitRight
      ensures rest.splitLeft == tag && rest.next == null && rest.prev == null
      ensures rest.addr == Ops.Behind(tag.addr, tag.size)
      ensures rest.Value() == Tag(MAGIC, 0, Wrap(tag.realSize - HEADER - tag.size), -1,
                                  tag.addr, Addr(tag.splitRight), NULL, NULL)
    {
      rest := new BoundaryTag(Ops.Behind(tag.addr, tag.size));
      rest.magic := MAGIC;
      rest.realSize := Wrap(tag.realSize - HEADER - tag.size);
      rest.next := null;
      rest.prev := null;
      rest.splitLeft := tag;
      rest.splitRight := tag.splitRight;
    }

    method CutTag(tag: BoundaryTag) returns (rest: BoundaryTag)
      requires Synced() && Held(tag) && tag.splitRight != tag && w.tags[tag.addr] == tag.Value()
      requires var n := Ops.Behind(tag.addr, tag.size); n != NULL && n !in w.owner && NoLinkTo(w, n)
      modifies this`w, this`tags, this`repr, repr
      ensures Synced() && Held(rest) && fresh(rest)
      ensures tags == old(tags)[rest.addr := rest] && repr == old(repr) + {rest}
      ensures rest.addr == old(Ops.Behind(tag.addr, tag.size))
      ensures w == Ops.CutTag(old(w), tag.addr)
    {
      assert Mirrored(tag.addr);
      var right := tag.splitRight;
      rest := MakeRest(tag);
      InsertRest(tag, rest, tag.realSize - rest.realSize, right);
    }

    /** The new record goes into memory, and into the chain behind `tag`. */
    method InsertRest(tag: BoundaryTag, rest: BoundaryTag, size: int, right: BoundaryTag?)
      requires Synced() && Held(tag) && w.tags[tag.addr] == tag.Value() && right != tag
      requires right == tag.splitRight && Known(right) && size == tag.realSize - rest.realSize
      requires rest !in repr && rest.Value() == Ops.RestOf(w, tag.addr) && rest.splitRight == right
      requires rest.splitLeft == tag && rest.next == null && rest.prev == null
      requires rest.addr == Ops.Behind(tag.addr, tag.size)
      requires rest.addr != NULL && rest.addr !in w.owner && NoLinkTo(w, rest.addr)
      modifies this`w, this`tags, this`repr, repr, rest
      ensures Synced() && Held(rest) && tags == old(tags)[rest.addr := rest] && repr == old(repr) + {rest}
      ensures w == Ops.CutTag(old(w), tag.addr)
    {
      assert Mirrored(tag.addr);
      ghost var base := Ops.ChunkOf(w, tag.addr);
      Ops.CutParts(w, tag.addr, rest.addr, rest.Value(), Addr(right), size, base);
      Install(rest, base);
      Splice(tag, size, rest, right);
    }

    /** `rest` goes between `tag`, cut down to `size` bytes, and `right`. */
    method Splice(tag: BoundaryTag, size: int, rest: BoundaryTag, right: BoundaryTag?)
      requires Synced() && Held(tag) && Held(rest) && Known(right)
      modifies this`w, repr
      ensures Synced()
      ensures w == Ops.PutRight(Ops.PutRealSize(Ops.PutLeft(old(w), Addr(right), rest.addr), tag.addr, size),
                                tag.addr, rest.addr)
    {
      Attach(right, rest);
      Widen(tag, size, rest);
    }

    /** The new tag of a split, cut off tag `t` of the state `was`, is filed by its size. */
    method FileRest(newTag: BoundaryTag, ghost was: World, ghost t: int)
      requires Synced() && Held(newTag) && w == Ops.CutTag(was, t)
      requires newTag.addr == Ops.Behind(t, At(was.tags, t).size) && newTag.addr != NULL && NoLinkTo(was, newTag.addr)
      modifies this`w, freePages, repr
      ensures Synced() && w == Ops.SplitTag(was, t)
    {
      SplitParts(was, t, w, newTag.addr);
      InsertTag(newTag, -1);
    }

    method SplitTag(tag: BoundaryTag) returns (newTag: BoundaryTag)
      requires Synced() && Held(tag) && tag.splitRight != tag && w.tags[tag.addr] == tag.Value()
      requires var n := Ops.Behind(tag.addr, tag.size); n != NULL && n !in w.owner && NoLinkTo(w, n)
      modifies this`w, this`tags, this`repr, freePages, repr
      ensures Synced() && fresh(newTag) && repr == old(repr) + {newTag}
      ensures w == Ops.SplitTag(old(w), tag.addr)
    {
      ghost var was := w;
      newTag := CutTag(tag);
      FileRest(newTag, was, tag.addr);
    }

    method GetPages(count: int) returns (base: int)
      requires Synced()
      modifies this`w, pages
      ensures Synced()
      ensures w == if Allows(old(w.src), count) then old(w).(src := Take(old(w.src), count)) else old(w)
      ensures base == if Allows(old(w.src), count) then old(w.src.cur) else NULL
    {
      base := pages.Alloc(count);
      w := w.(src := pages.Value());
      StillMirrored();
    }

    /** The record of a new chunk. */
    method MakeTag(base: int, size: int, realSize: int) returns (tag: BoundaryTag)
      ensures fresh(tag) && tag.addr == base
      ensures tag.next == null && tag.prev == null && tag.splitLeft == null && tag.splitRight == null
      ensures tag.Value() == Tag(MAGIC, size, realSize, -1, NULL, NULL, NULL, NULL)
    {
      tag := new BoundaryTag(base);
      tag.magic := MAGIC;
      tag.size := size;
      tag.realSize := realSize;
      tag.index := -1;
      tag.next, tag.prev, tag.splitLeft, tag.splitRight := null, null, null, null;
    }

    method AllocateNewTag(size: int) returns (tag: BoundaryTag?)
      requires Synced() && 0 <= size < TWO32
      requires w.src.cur != NULL && w.src.cur !in w.owner && NoLinkTo(w, w.src.cur)
      modifies this`w, this`tags, this`repr, pages
      ensures Synced() && fresh(repr - old(repr))
      ensures if Allows(old(w.src), Ops.PagesFor(size))
              then tag != null && fresh(tag) && Held(tag) && tag.addr == old(w.src.cur)
                && w == Ops.NewTag(old(w), size)
              else tag == null && w == old(w)
    {
      var usage := Wrap(size + HEADER);
      var count := usage / PAGE;
      if usage % PAGE != 0 {
        count := count + 1;
      }
      if count < MIN_PAGES {
        count := MIN_PAGES;
      }
      assert count == Ops.PagesFor(size);
      var base := GetPages(count);
      if base == NULL {
        return null;
      }
      tag := MakeTag(base, size, Wrap(count * PAGE));
      Install(tag, base);
    }

    // ----- malloc -----

    /** The search of malloc: the first tag of the request's list that fits. */
    method Search(index: int, size: int) returns (tag: BoundaryTag?)
      requires Synced() && |w.lists| == MAX_EXP
      requires index == Class(size) && MIN_EXP <= index < MAX_EXP && IsList(w, index)
      ensures Addr(tag) == Spec.Candidate(w, size) && (tag != null ==> Held(tag))
      ensures FoundFirst(w, w.lists[index], size, Addr(tag))
    {
      tag := freePages[index];
      ghost var k, l := 0, w.lists[index];
      assert IsList(w, index) && (l != [] ==> Node(w, index, 0));
      while tag != null
        invariant 0 <= k <= |l| && Addr(tag) == (if k < |l| then l[k] else NULL)
        invariant if k < |l| then tag != null && Held(tag) else tag == null
        invariant forall j | 0 <= j < k :: !Spec.Fits(At(w.tags, l[j]), size)
        decreases |l| - k
      {
        assert Mirrored(tag.addr) && Node(w, index, k);
        if Wrap(tag.realSize - HEADER) >= Wrap(size + HEADER) {
          break;
        }
        tag := tag.next;
        k := k + 1;
        assert k < |l| ==> Node(w, index, k);
      }
      assert tag != null ==> k < |l| && l[k] == tag.addr;
    }

    /** A fitting tag leaves its list, and the count of whole chunks if it is one. */
    method Reuse(tag: BoundaryTag, index: int)
      requires Synced() && Held(tag) && OffToItself(w, tag.addr) && At(w.tags, tag.addr).index == index
      modifies this`w, freePages, completePages, repr
      ensures Synced() && w == Spec.Reuse(old(w), tag.addr) && Held(tag)
    {
      assert Mirrored(tag.addr);
      Spec.ReuseKeeps(w, tag.addr);
      RemoveTag(tag);
      assert Mirrored(tag.addr);
      if tag.splitLeft == null && tag.splitRight == null {
        AddToCount(index, -1);
      }
    }

    /** The end of malloc: note the size and give back what is left over. */
    method Place(tag: BoundaryTag, size: int)
      requires Synced() && Held(tag) && Placeable(w, tag.addr, size)
      modifies this`w, this`tags, this`repr, freePages, repr
      ensures Synced() && w == Spec.Place(old(w), tag.addr, size)
      ensures fresh(repr - old(repr))
    {
      PutSize(tag, size);
      assert Mirrored(tag.addr) && SplitAllowed(w, tag.addr, Ops.Behind(tag.addr, size));
      var remainder := Wrap(tag.realSize - size - HEADER * 2);
      assert AsInt(remainder) == Spec.Remainder(w, tag.addr);
      if AsInt(remainder) > 0 {
        var childIndex := GetExp(remainder);
        if childIndex >= 0 {
          var newTag := SplitTag(tag);
        }
      }
    }

    /** The first call clears the two arrays, which are clear already. */
    method Initialize()
      requires Synced() && Untouched(w)
      modifies this`w, this`initialized, freePages, completePages
      ensures Synced() && initialized && w == old(w) && tags == old(tags) && repr == old(repr)
    {
      ghost var v := w;
      var index := 0;
      while index < MAX_EXP
        invariant 0 <= index <= MAX_EXP
        invariant Synced() && w == v && tags == old(tags) && repr == old(repr)
      {
        PutHead(index, null);
        assert w.heads == v.heads;
        AddToCount(index, -completePages[index]);
        assert w.complete == v.complete;
        index := index + 1;
      }
      label Cleared:
      initialized := true;
      StillMirrored@Cleared();
    }

    /** The first part of malloc: a listed tag that fits, or a new chunk. */
    method Obtain(size: int) returns (tag: BoundaryTag?)
      requires Synced() && 0 <= size < TWO32 && ObtainReady(w, size)
      modifies this`w, this`tags, this`repr, freePages, completePages, pages, repr
      ensures Synced() && fresh(repr - old(repr)) && (tag != null ==> Held(tag))
      ensures (w, Addr(tag)) == Spec.Obtain(old(w), size)
    {
      ghost var t := Spec.Candidate(w, size);
      Spec.ObtainParts(w, size, t);
      var index := ListFor(size);
      tag := Search(index, size);
      if tag == null {
        tag := AllocateNewTag(size);
      } else {
        Reuse(tag, index);
      }
    }

    /** malloc once the arrays are set up. */
    method Serve(size: int) returns (ptr: int)
      requires Synced() && 0 <= size < TWO32 && MallocReady(w, size)
      modifies this`w, this`tags, this`repr, freePages, completePages, pages, repr
      ensures Synced() && fresh(repr - old(repr))
      ensures w == Spec.Malloc(old(w), size).0 && ptr == Spec.Malloc(old(w), size).1
    {
      ghost var (v, t) := Spec.Obtain(w, size);
      Spec.MallocParts(w, size, v, t);
      var tag := Obtain(size);
      if tag == null {
        return NULL;
      }
      assert w == v && tag.addr == t;
      Place(tag, size);
      ptr := tag.addr + HEADER;
    }

    /** malloc, as far as the records go. */
    method MallocRecords(size: int) returns (ptr: int)
      requires Synced() && Started() && 0 <= size < TWO32 && MallocReady(w, size)
      modifies this`w, this`tags, this`repr, this`initialized, freePages, completePages, pages, repr
      ensures Synced() && initialized && fresh(repr - old(repr))
      ensures w == Spec.Malloc(old(w), size).0 && ptr == Spec.Malloc(old(w), size).1
    {
      if !initialized {
        Initialize();
      }
      ptr := Serve(size);
    }

    /** malloc: the state that its specification gives, and what that means for the caller. */
    method Malloc(size: int) returns (ptr: int)
      requires Valid() && Legal(w, DoMalloc(size))
      modifies this`w, this`tags, this`repr, this`initialized, freePages, completePages, pages, repr
      ensures Valid() && fresh(repr - old(repr))
      ensures w == Spec.Malloc(old(w), size).0 && ptr == Spec.Malloc(old(w), size).1
      ensures Serves(old(w), size, w, ptr) && MallocOutcome(old(w), size, w, ptr)
    {
      MallocWillDo(w, size);
      ptr := MallocRecords(size);
    }

    // ----- free -----

    /** A whole free chunk goes back to the page source. */
    method Release(tag: BoundaryTag, count: int)
      requires Synced()
      modifies this`w, pages
      ensures Synced() && w == Ops.Release(old(w), tag.addr, count)
    {
      pages.Free(tag.addr, count);
      w := Ops.Release(w, tag.addr, count);
      StillMirrored();
    }

    /** The end of free: back into a list, or back to the page source. */
    method Shelve(tag: BoundaryTag)
      requires Synced() && Held(tag) && ShelveReady(w, tag.addr)
      modifies this`w, freePages, completePages, pages, repr
      ensures Synced() && w == Spec.Shelve(old(w), tag.addr)
    {
      assert Mirrored(tag.addr);
      var index := ListFor(Wrap(tag.realSize - HEADER));
      if tag.splitLeft == null && tag.splitRight == null {
        if completePages[index] == MAX_COMPLETE {
          var count := tag.realSize / PAGE;
          if tag.realSize % PAGE != 0 {
            count := count + 1;
          }
          if count < MIN_PAGES {
            count := MIN_PAGES;
          }
          Release(tag, count);
          return;
        }
        AddToCount(index, 1);
      }
      InsertTag(tag, index);
    }

    /** One turn of the melt-left loop. */
    method MeltStep(tag: BoundaryTag) returns (left: BoundaryTag)
      requires Synced() && Held(tag) && tag.splitLeft != null && MeltReady(w, tag.addr)
      modifies this`w, freePages, repr
      ensures Synced() && Held(left) && left.addr == At(old(w.tags), tag.addr).splitLeft
      ensures w == Spec.MeltStep(old(w), tag.addr)
    {
      assert Mirrored(tag.addr);
      left := MeltLeft(tag);
      assert Mirrored(left.addr);
      RemoveTag(left);
    }

    ghost predicate FreeLeftMirrored(t: BoundaryTag)
      reads this, t, t.splitLeft
    {
      Spec.LeftIsFree(w, t.addr) <==> t.splitLeft != null && t.splitLeft.index >= 0
    }

    /** The melt-left loop, which never takes a second turn. */
    method MeltAll(tag: BoundaryTag) returns (t: BoundaryTag)
      requires Synced() && Held(tag) && MeltsOnce(w, tag.addr)
      modifies this`w, freePages, repr
      ensures Synced() && Held(t) && (w, t.addr) == Spec.Melt(old(w), tag.addr)
    {
      t := tag;
      ghost var v, turns := w, 0;
      assert Mirrored(t.addr);
      assert t.splitLeft != null ==> Mirrored(t.splitLeft.addr);
      while t.splitLeft != null && t.splitLeft.index >= 0
        invariant Synced() && Held(t) && FreeLeftMirrored(t) && 0 <= turns <= 1
        invariant (w, t.addr) == if turns == 0 then (v, tag.addr) else Spec.Melt(v, tag.addr)
        decreases 1 - turns
      {
        t := MeltStep(t);
        turns := turns + 1;
        assert Mirrored(t.addr);
        assert t.splitLeft != null ==> Mirrored(t.splitLeft.addr);
      }
    }

    ghost predicate FreeRightMirrored(t: BoundaryTag)
      reads this, t, t.splitRight
    {
      Spec.RightIsFree(w, t.addr) <==> t.splitRight != null && t.splitRight.index >= 0
    }

    /** The melt-right loop, which never takes a second turn either. */
    method AbsorbAll(tag: BoundaryTag)
      requires Synced() && Held(tag) && AbsorbsOnce(w, tag.addr)
      modifies this`w, freePages, repr
      ensures Synced() && Held(tag) && w == Spec.Absorb(old(w), tag.addr)
    {
      ghost var v, turns := w, 0;
      assert Mirrored(tag.addr);
      assert tag.splitRight != null ==> Mirrored(tag.splitRight.addr);
      while tag.splitRight != null && tag.splitRight.index >= 0
        invariant Synced() && Held(tag) && FreeRightMirrored(tag) && 0 <= turns <= 1
        invariant w == if turns == 0 then v else Spec.Absorb(v, tag.addr)
        decreases 1 - turns
      {
        assert Mirrored(tag.addr);
        assert Mirrored(tag.splitRight.addr);
        AbsorbRight(tag);
        turns := turns + 1;
        assert Mirrored(tag.addr);
        assert tag.splitRight != null ==> Mirrored(tag.splitRight.addr);
      }
    }

    /** free, once the tag is known to be one: melt left, melt right, shelve. */
    method Reclaim(tag: BoundaryTag)
      requires Synced() && Held(tag) && FreeReady(w, tag.addr)
      modifies this`w, freePages, completePages, pages, repr
      ensures Synced() && w == Spec.Reclaim(old(w), tag.addr)
    {
      var t := MeltAll(tag);
      AbsorbAll(t);
      Shelve(t);
    }

    /** The magic word at an address; zero where no header was ever written. */
    method MagicAt(a: int) returns (magic: int)
      requires Synced()
      ensures magic == At(w.tags, a).magic
    {
      magic := 0;
      if a in tags {
        assert Mirrored(a);
        magic := tags[a].magic;
      }
    }

    /** free, as far as the records go. */
    method FreeRecords(ptr: int)
      requires Synced() && FreeAllowed(w, ptr)
      modifies this`w, freePages, completePages, pages, repr
      ensures Synced() && w == Spec.Free(old(w), ptr)
    {
      if ptr == NULL {
        return;
      }
      var magic := MagicAt(ptr - HEADER);
      if magic != MAGIC {
        return;
      }
      assert Mirrored(ptr - HEADER);
      Spec.FreeParts(w, ptr - HEADER);
      Reclaim(tags[ptr - HEADER]);
    }

    /** free: the state that its specification gives, and what that means for the caller. */
    method Free(ptr: int)
      requires Valid() && MayFree(w, ptr)
      modifies this`w, freePages, completePages, pages, repr
      ensures Valid() && w == Spec.Free(old(w), ptr)
      ensures Live(w) == Live(old(w)) - {ptr - HEADER} && Frees(old(w), ptr, w)
    {
      FreeWillDo(w, ptr);
      FreeRecords(ptr);
    }

    // ----- realloc -----

    method MoveBytes(dst: int, src: int, n: int)
      requires Synced() && Laid() && RoomToMove(w, dst, src, n)
      modifies bytes
      ensures Synced()
      ensures Moved(old(bytes[..]), bytes[..], dst, src, n)
    {
      CopyIsMove(bytes[..], dst, src, n);
      MemCpy(bytes, dst, src, n);
    }

    /** realloc of a live block, as far as records and bytes go; `n` bytes are copied. */
    method ReallocRecords(ptr: int, size: int, n: int) returns (p: int)
      requires Synced() && Laid() && Started() && 0 <= size < TWO32 && MallocReady(w, size)
      requires MoveReady(Spec.Malloc(w, size).0, Spec.Malloc(w, size).1, ptr, n)
      modifies this`w, this`tags, this`repr, this`initialized, freePages, completePages, pages, repr, bytes
      ensures Synced() && initialized && fresh(repr - old(repr))
      ensures w == Spec.Free(Spec.Malloc(old(w), size).0, ptr) && p == Spec.Malloc(old(w), size).1
      ensures Moved(old(bytes[..]), bytes[..], p, ptr, n)
    {
      p := MallocRecords(size);
      MoveBytes(p, ptr, n);
      FreeRecords(ptr);
    }

    /** realloc of a live block to a size that is not 0. */
    method Exchange(ptr: int, size: int) returns (p: int)
      requires Valid() && 0 < size < TWO32 && Servable(w, size)
      requires ptr != NULL && IsLive(w, ptr - HEADER) && CopyStaysOut(w, ptr, size)
      modifies this`w, this`tags, this`repr, this`initialized, freePages, completePages, pages, repr, bytes
      ensures Valid() && fresh(repr - old(repr))
      ensures w == Spec.Realloc(old(w), ptr, size).0 && p == Spec.Realloc(old(w), ptr, size).1
      ensures Exchanges(old(w), ptr, size, w, p)
      ensures Carried(old(bytes[..]), bytes[..], p, ptr, Live(old(w))[ptr - HEADER], size)
    {
      ReallocWillDo(w, ptr, size);
      assert Mirrored(ptr - HEADER);
      var realSize := tags[ptr - HEADER].size;
      if realSize > size {
        realSize := size;
      }
      ghost var m := bytes[..];
      p := ReallocRecords(ptr, size, realSize);
      MovedIsCarried(m, bytes[..], p, ptr, Live(old(w))[ptr - HEADER], size, realSize);
    }

    method Realloc(ptr: int, size: int) returns (p: int)
      requires Valid() && 0 <= size < TWO32
      requires ptr == NULL || IsLive(w, ptr - HEADER)
      requires size != 0 ==> Servable(w, size)
      requires size != 0 && ptr != NULL ==> CopyStaysOut(w, ptr, size)
      modifies this`w, this`tags, this`repr, this`initialized, freePages, completePages, pages, repr, bytes
      ensures Valid() && fresh(repr - old(repr))
      ensures w == Spec.Realloc(old(w), ptr, size).0 && p == Spec.Realloc(old(w), ptr, size).1
      ensures Reallocates(old(w), ptr, size, w, p)
      ensures if size == 0 || ptr == NULL then bytes[..] == old(bytes[..])
              else Carried(old(bytes[..]), bytes[..], p, ptr, Live(old(w))[ptr - HEADER], size)
    {
      Spec.ReallocCases(w, ptr, size);
      if size == 0 {
        Free(ptr);
        p := NULL;
      } else if ptr == NULL {
        p := Malloc(size);
      } else {
        p := Exchange(ptr, size);
      }
    }
  }
}
