/** pmm.c: page frames handed out from a bitmap, first fit. */
module FrameBitmap {
  import opened Machine

  const BITS_PER_WORD := 8
  /** The bitmap's own words, and the frames it has a bit for. */
  const WORDS := 32768
  const FRAMES := 262144
  /** The bits the scan looks at: it runs on into the words behind the bitmap. */
  const SCAN_LIMIT := 280576
  /** Every index a 32-bit address can have, and the words that hold a bit for each. */
  const INDICES := 0x10_0000
  const ALL_WORDS := 0x2_0000

  // ----- the bits of a word -----

  /** x | y, bit by bit. */
  function Or(x: nat, y: nat): nat
    decreases x + y
  {
    if x + y == 0 then 0 else Max(x % 2, y % 2) + 2 * Or(x / 2, y / 2)
  }

  /** x & ~y, bit by bit. */
  function AndNot(x: nat, y: nat): nat
    decreases x
  {
    if x == 0 then 0 else (if y % 2 == 0 then x % 2 else 0) + 2 * AndNot(x / 2, y / 2)
  }

  /** Bit k, counted from the low end. */
  predicate Bit(x: nat, k: nat)
    decreases k
  {
    if k == 0 then x % 2 == 1 else Bit(x / 2, k - 1)
  }

  lemma {:induction false} OrBits(x: nat, y: nat, k: nat)
    ensures Bit(Or(x, y), k) <==> Bit(x, k) || Bit(y, k)
    decreases k
  {
    assert Or(x, y) / 2 == Or(x / 2, y / 2);
    if k != 0 {
      OrBits(x / 2, y / 2, k - 1);
    }
  }

  lemma {:induction false} AndNotBits(x: nat, y: nat, k: nat)
    ensures Bit(AndNot(x, y), k) <==> Bit(x, k) && !Bit(y, k)
    decreases k
  {
    if x == 0 {
      ZeroBits(k);
    } else {
      assert AndNot(x, y) / 2 == AndNot(x / 2, y / 2);
      if k != 0 {
        AndNotBits(x / 2, y / 2, k - 1);
      }
    }
  }

  lemma {:induction false} ZeroBits(k: nat)
    ensures !Bit(0, k)
    decreases k
  {
    if k != 0 {
      ZeroBits(k - 1);
    }
  }

  /** 1 << k has bit k and no other. */
  lemma {:induction false} PowerBits(k: nat, j: nat)
    ensures Bit(Pow2(k), j) <==> j == k
    decreases k
  {
    if k == 0 {
      if j != 0 {
        ZeroBits(j - 1);
      }
    } else if j != 0 {
      assert Pow2(k) / 2 == Pow2(k - 1);
      PowerBits(k - 1, j - 1);
    }
  }

  /** (x >> k) & 1 is bit k. */
  lemma {:induction false} ShiftedBit(x: nat, k: nat)
    ensures x / Pow2(k) % 2 != 0 <==> Bit(x, k)
    decreases k
  {
    if k != 0 {
      DivTwice(x, Pow2(k - 1));
      ShiftedBit(x / 2, k - 1);
    }
  }

  lemma DivTwice(x: nat, p: nat)
    requires p > 0
    ensures x / (2 * p) == x / 2 / p
  {
    var q, r := x / 2 / p, x / 2 % p;
    assert x / 2 == p * q + r;
    assert x == 2 * (p * q + r) + x % 2;
    QuotientIs(x, 2 * p, q);
  }

  lemma {:induction false} OrFits(x: nat, y: nat, k: nat)
    requires x < Pow2(k) && y < Pow2(k)
    ensures Or(x, y) < Pow2(k)
    decreases k
  {
    if x + y != 0 {
      OrFits(x / 2, y / 2, k - 1);
    }
  }

  lemma {:induction false} AndNotFits(x: nat, y: nat)
    ensures AndNot(x, y) <= x
    decreases x
  {
    if x != 0 {
      AndNotFits(x / 2, y / 2);
    }
  }

  lemma OneBitFits(x: nat, k: nat)
    requires x < TWO32 && k < BITS_PER_WORD
    ensures Or(x, Pow2(k)) < TWO32
  {
    assert Pow2(4) == 16 && Pow2(8) == 256 && Pow2(12) == 4096 && Pow2(16) == 65536;
    assert Pow2(20) == 0x10_0000 && Pow2(24) == 0x100_0000 && Pow2(28) == 0x1000_0000 && Pow2(32) == TWO32;
    Pow2Monotone(k, 32);
    OrFits(x, Pow2(k), 32);
  }

  /** Setting a bit that is clear adds its weight; setting one that is set changes nothing. */
  lemma {:induction false} OrAdds(x: nat, k: nat)
    ensures Or(x, Pow2(k)) == if x / Pow2(k) % 2 == 0 then x + Pow2(k) else x
    decreases k
  {
    if k == 0 {
      OrNothing(x / 2);
    } else {
      assert Pow2(k) / 2 == Pow2(k - 1);
      DivTwice(x, Pow2(k - 1));
      OrAdds(x / 2, k - 1);
    }
  }

  lemma {:induction false} OrNothing(x: nat)
    ensures Or(x, 0) == x
    decreases x
  {
    if x != 0 {
      OrNothing(x / 2);
    }
  }

  /** Clearing a bit that is set takes its weight away; clearing one that is clear changes nothing. */
  lemma {:induction false} AndNotTakes(x: nat, k: nat)
    ensures AndNot(x, Pow2(k)) == if x / Pow2(k) % 2 == 0 then x else x - Pow2(k)
    decreases k
  {
    if k == 0 {
      AndNotNothing(x / 2);
    } else {
      assert Pow2(k) / 2 == Pow2(k - 1);
      DivTwice(x, Pow2(k - 1));
      AndNotTakes(x / 2, k - 1);
    }
  }

  lemma {:induction false} AndNotNothing(x: nat)
    ensures AndNot(x, 0) == x
    decreases x
  {
    if x != 0 {
      AndNotNothing(x / 2);
    }
  }

  // ----- frames -----

  /** addr & 0xfffff000, plus a page even when nothing was cut off. */
  function BlockAlign(a: int): int {
    Wrap(a / PAGE * PAGE + PAGE)
  }

  /** The address kalloc_page_frame returns for a bit. */
  function FrameAddress(p: int, i: int): int {
    BlockAlign(Wrap(p + i * PAGE))
  }

  /** The bit kfree_page_frame clears for an address. */
  function FrameIndex(p: int, addr: int): int {
    Wrap(addr - p) / PAGE
  }

  /** The frames all lie below 2^32. */
  predicate Fits(p: int) {
    0 <= p && p + (SCAN_LIMIT + 1) * PAGE < TWO32
  }

  lemma AddressOfFrame(p: int, i: int)
    requires Fits(p) && 0 <= i < SCAN_LIMIT
    ensures FrameAddress(p, i) == p / PAGE * PAGE + i * PAGE + PAGE
    ensures FrameAddress(p, i) % PAGE == 0
  {
    assert (p + i * PAGE) / PAGE == p / PAGE + i;
  }

  /** Freeing a frame clears the bit that was set for it exactly when the first frame's base is
      not page aligned; when it is, the next frame's bit is cleared instead. */
  lemma FreeFindsTheBit(p: int, i: int)
    requires Fits(p) && 0 <= i < SCAN_LIMIT
    ensures FrameIndex(p, FrameAddress(p, i)) == i <==> p % PAGE != 0
    ensures p % PAGE == 0 ==> FrameIndex(p, FrameAddress(p, i)) == i + 1
  {
    AddressOfFrame(p, i);
    assert FrameAddress(p, i) - p == i * PAGE + PAGE - p % PAGE;
  }

  lemma FramesDistinct(p: int, i: int, j: int)
    requires Fits(p) && 0 <= i < SCAN_LIMIT && 0 <= j < SCAN_LIMIT && FrameAddress(p, i) == FrameAddress(p, j)
    ensures i == j
  {
    AddressOfFrame(p, i);
    AddressOfFrame(p, j);
  }

  /** The first clear bit from `from` on; SCAN_LIMIT when there is none. */
  ghost function LeastFree(used: set<int>, from: int): (i: int)
    requires 0 <= from <= SCAN_LIMIT
    ensures from <= i <= SCAN_LIMIT
    ensures i < SCAN_LIMIT ==> i !in used
    ensures forall j | from <= j < i :: j in used
    decreases SCAN_LIMIT - from
  {
    if from == SCAN_LIMIT || from !in used then from else LeastFree(used, from + 1)
  }

  /** The frame taken is one the bitmap has a bit for exactly when one of its own bits is clear. */
  lemma ScanStaysInside(used: set<int>)
    ensures LeastFree(used, 0) < FRAMES <==> exists i :: 0 <= i < FRAMES && i !in used
  {
    var i := LeastFree(used, 0);
    assert i < FRAMES ==> i !in used;
  }

  /** Bit i is the lowest one clear among those scanned. */
  ghost predicate FirstClear(used: set<int>, i: int) {
    0 <= i < 280576 && i !in used && forall j | 0 <= j < i :: j in used
  }

  /** The lowest clear bit is set and its frame returned, which is the next page after the bit's
      place behind the first frame; -1 as an unsigned word when there is none. */
  ghost predicate TakesFirst(p: int, used: set<int>, v: set<int>, addr: int) {
    && (forall i | FirstClear(used, i) :: v == used + {i} && addr == p / 4096 * 4096 + (i + 1) * 4096)
    && ((forall i | 0 <= i < 280576 :: i in used) ==> v == used && addr == 0xffff_ffff)
  }

  lemma LeastIsFirst(p: int, used: set<int>, v: set<int>, addr: int)
    requires Fits(p)
    requires var i := LeastFree(used, 0);
      if i < SCAN_LIMIT then v == used + {i} && addr == FrameAddress(p, i) else v == used && addr == TWO32 - 1
    ensures TakesFirst(p, used, v, addr)
  {
    var n := LeastFree(used, 0);
    assert forall i | FirstClear(used, i) :: i == n;
    if n < SCAN_LIMIT {
      AddressOfFrame(p, n);
    }
  }

  class FrameAllocator {
    /** The words of the bitmap, and behind them the other memory a scan or a free can reach. */
    const bitmap: array<int>
    const placement: int

    /** An empty bitmap, in front of whatever `behind` holds. */
    constructor (placement: int, behind: seq<int>)
      requires Fits(placement) && |behind| == ALL_WORDS - WORDS && forall x | x in behind :: 0 <= x < TWO32
      ensures Valid() && this.placement == placement && fresh(bitmap) && bitmap[WORDS..] == behind
      ensures forall i | 0 <= i < FRAMES :: i !in Used()
    {
      this.placement := placement;
      bitmap := new int[ALL_WORDS](x requires 0 <= x < ALL_WORDS =>
        if x < WORDS then 0 else behind[x - WORDS]);
      new;
      forall x | 0 <= x < ALL_WORDS
        ensures 0 <= bitmap[x] < TWO32
      {
        assert WORDS <= x ==> bitmap[x] == behind[x - WORDS] && behind[x - WORDS] in behind;
      }
      forall i | 0 <= i < FRAMES
        ensures !Taken(bitmap[..], i)
      {
        ZeroBits(i % BITS_PER_WORD);
      }
    }

    ghost predicate Valid()
      reads bitmap
    {
      && bitmap.Length == ALL_WORDS && Fits(placement)
      && (forall x | 0 <= x < ALL_WORDS :: 0 <= bitmap[x] < TWO32)
    }

    /** The bitmap as a set of frames. */
    ghost function Used(): set<int>
      requires Valid()
      reads bitmap
    {
      set i | 0 <= i < INDICES && Taken(bitmap[..], i)
    }

    static ghost predicate Taken(words: seq<int>, i: int)
      requires |words| == ALL_WORDS && 0 <= i < INDICES
      requires forall x | 0 <= x < ALL_WORDS :: 0 <= words[x]
    {
      Bit(words[i / BITS_PER_WORD], i % BITS_PER_WORD)
    }

    method IsSet(i: int) returns (b: bool)
      requires Valid() && 0 <= i < INDICES
      ensures b <==> i in Used()
      ensures b <==> bitmap[i / 8] / Pow2(i % 8) % 2 == 1
    {
      ShiftedBit(bitmap[i / BITS_PER_WORD], i % BITS_PER_WORD);
      b := bitmap[i / BITS_PER_WORD] / Pow2(i % BITS_PER_WORD) % 2 != 0;
    }

    method SetBit(i: int)
      requires Valid() && 0 <= i < INDICES
      modifies bitmap
      ensures Valid() && Used() == old(Used()) + {i}
      ensures
        var x := old(bitmap[i / 8]);
        bitmap[..] == old(bitmap[..])[i / 8 := if x / Pow2(i % 8) % 2 == 0 then x + Pow2(i % 8) else x]
    {
      var x, k := bitmap[i / BITS_PER_WORD], i % BITS_PER_WORD;
      ghost var words := bitmap[..];
      OneBitFits(x, k);
      OrAdds(x, k);
      bitmap[i / BITS_PER_WORD] := Or(x, Pow2(k));
      forall j | 0 <= j < INDICES
        ensures Taken(bitmap[..], j) <==> j == i || Taken(words, j)
      {
        OrBits(x, Pow2(k), j % BITS_PER_WORD);
        PowerBits(k, j % BITS_PER_WORD);
      }
    }

    method ClearBit(i: int)
      requires Valid() && 0 <= i < INDICES
      modifies bitmap
      ensures Valid() && Used() == old(Used()) - {i}
      ensures
        var x := old(bitmap[i / 8]);
        bitmap[..] == old(bitmap[..])[i / 8 := if x / Pow2(i % 8) % 2 == 0 then x else x - Pow2(i % 8)]
    {
      var x, k := bitmap[i / BITS_PER_WORD], i % BITS_PER_WORD;
      ghost var words := bitmap[..];
      AndNotFits(x, Pow2(k));
      AndNotTakes(x, k);
      bitmap[i / BITS_PER_WORD] := AndNot(x, Pow2(k));
      forall j | 0 <= j < INDICES
        ensures Taken(bitmap[..], j) <==> j != i && Taken(words, j)
      {
        AndNotBits(x, Pow2(k), j % BITS_PER_WORD);
        PowerBits(k, j % BITS_PER_WORD);
      }
    }

    /** First fit; -1 as an unsigned word when every bit scanned is set. */
    method KallocPageFrame() returns (addr: int)
      requires Valid()
      modifies bitmap
      ensures Valid()
      ensures var i := LeastFree(old(Used()), 0);
        if i < SCAN_LIMIT then Used() == old(Used()) + {i} && addr == FrameAddress(placement, i)
        else Used() == old(Used()) && addr == TWO32 - 1
      ensures TakesFirst(placement, old(Used()), Used(), addr)
    {
      var i := 0;
      while i < SCAN_LIMIT
        invariant Valid() && bitmap[..] == old(bitmap[..])
        invariant 0 <= i <= LeastFree(Used(), 0)
      {
        var taken := IsSet(i);
        if !taken {
          SetBit(i);
          addr := FrameAddress(placement, i);
          LeastIsFirst(placement, old(Used()), Used(), addr);
          return;
        }
        i := i + 1;
      }
      LeastIsFirst(placement, old(Used()), Used(), TWO32 - 1);
      return TWO32 - 1;
    }

    method KfreePageFrame(addr: int)
      requires Valid()
      modifies bitmap
      ensures Valid() && Used() == old(Used()) - {FrameIndex(placement, addr)}
      ensures placement <= addr < TWO32 ==> Used() == old(Used()) - {(addr - placement) / 4096}
      ensures 0 <= addr < placement ==> Used() == old(Used()) - {(addr + 0x1_0000_0000 - placement) / 4096}
    {
      var offset := Wrap(addr - placement);
      if offset == 0 {
        ClearBit(offset);
      } else {
        ClearBit(offset / PAGE);
      }
    }
  }

  // ----- runs -----

  datatype FrameCall = Take | Give(addr: int)

  /** The bits set, and the addresses handed out and not given back, as often as that was done. */
  datatype FrameState = FrameState(used: set<int>, out: multiset<int>)

  const NO_FRAMES := FrameState({}, multiset{})

  predicate MayCall(s: FrameState, c: FrameCall) {
    c.Give? ==> c.addr in s.out
  }

  ghost function Called(p: int, s: FrameState, c: FrameCall): FrameState {
    match c
    case Take =>
      var i := LeastFree(s.used, 0);
      if i < SCAN_LIMIT then FrameState(s.used + {i}, s.out + multiset{FrameAddress(p, i)}) else s
    case Give(addr) => FrameState(s.used - {FrameIndex(p, addr)}, s.out - multiset{addr})
  }

  ghost predicate MayRun(p: int, s: FrameState, calls: seq<FrameCall>)
    decreases calls
  {
    calls == [] || (MayCall(s, calls[0]) && MayRun(p, Called(p, s, calls[0]), calls[1..]))
  }

  ghost function FramesAfter(p: int, s: FrameState, calls: seq<FrameCall>): FrameState
    decreases calls
  {
    if calls == [] then s else FramesAfter(p, Called(p, s, calls[0]), calls[1..])
  }

  /** The bits set are those set at the start and, one for one, those of the addresses handed out. */
  ghost predicate OneForOne(p: int, start: set<int>, s: FrameState) {
    && (forall a | a in s.out :: s.out[a] == 1 && a % PAGE == 0
          && 0 <= FrameIndex(p, a) < SCAN_LIMIT && a == FrameAddress(p, FrameIndex(p, a)))
    && (forall i | 0 <= i < SCAN_LIMIT :: i in s.used <==> i in start || FrameAddress(p, i) in s.out)
    && (forall i | 0 <= i < SCAN_LIMIT && i in start :: FrameAddress(p, i) !in s.out)
  }

  /** The frame a Take would hand out now is not outstanding. */
  ghost predicate TakesNew(p: int, s: FrameState) {
    var i := LeastFree(s.used, 0);
    i < SCAN_LIMIT ==> FrameAddress(p, i) !in s.out
  }

  lemma CallKeeps(p: int, start: set<int>, s: FrameState, c: FrameCall)
    requires Fits(p) && p % PAGE != 0 && OneForOne(p, start, s) && MayCall(s, c)
    ensures OneForOne(p, start, Called(p, s, c)) && TakesNew(p, s)
  {
    var v, n := Called(p, s, c), LeastFree(s.used, 0);
    if c.Take? && n < SCAN_LIMIT {
      FreeFindsTheBit(p, n);
      AddressOfFrame(p, n);
      forall i | 0 <= i < SCAN_LIMIT && FrameAddress(p, i) == FrameAddress(p, n)
        ensures i == n
      {
        FramesDistinct(p, i, n);
      }
    } else if c.Give? {
      forall i | 0 <= i < SCAN_LIMIT && FrameAddress(p, i) == c.addr
        ensures i == FrameIndex(p, c.addr)
      {
        FreeFindsTheBit(p, i);
      }
    }
  }

  /** Over every run, with a base that is not page aligned: the outstanding frames are page
      aligned, none is outstanding twice, each holds its own bit, and every Take hands out a frame
      that is not outstanding just before. */
  lemma {:induction false} FramesOverARun(p: int, start: set<int>, s: FrameState, calls: seq<FrameCall>)
    requires Fits(p) && p % PAGE != 0 && OneForOne(p, start, s) && MayRun(p, s, calls)
    ensures OneForOne(p, start, FramesAfter(p, s, calls))
    ensures forall k | 0 <= k < |calls| && calls[k].Take? :: TakesNew(p, FramesAfter(p, s, calls[..k]))
    decreases calls
  {
    if calls != [] {
      var v := Called(p, s, calls[0]);
      CallKeeps(p, start, s, calls[0]);
      FramesOverARun(p, start, v, calls[1..]);
      forall k | 0 <= k < |calls| && calls[k].Take?
        ensures TakesNew(p, FramesAfter(p, s, calls[..k]))
      {
        if k != 0 {
          assert calls[..k][1..] == calls[1..][..k - 1];
        }
      }
    }
  }

  /** Two frames taken, the first given back, and another taken. */
  function TwoOneOne(p: int): seq<FrameCall> {
    [Take, Take, Give(FrameAddress(p, 0)), Take]
  }

  /** With an aligned base that run hands out the second frame while it is outstanding. */
  lemma AlignedHandsOutTwice(p: int)
    requires Fits(p) && p % PAGE == 0
    ensures MayRun(p, NO_FRAMES, TwoOneOne(p))
    ensures !TakesNew(p, FramesAfter(p, NO_FRAMES, TwoOneOne(p)[..3]))
    ensures FramesAfter(p, NO_FRAMES, TwoOneOne(p)).out[FrameAddress(p, 1)] == 2
  {
    var a, b, calls := FrameAddress(p, 0), FrameAddress(p, 1), TwoOneOne(p);
    var s1 := FrameState({0}, multiset{a});
    var s2 := FrameState({0, 1}, multiset{a, b});
    var s3 := FrameState({0}, multiset{b});
    FreeFindsTheBit(p, 0);
    AddressOfFrame(p, 0);
    AddressOfFrame(p, 1);
    assert LeastFree({}, 0) == 0 && LeastFree({0}, 0) == 1;
    assert Called(p, NO_FRAMES, Take) == s1;
    assert Called(p, s1, Take) == s2;
    assert Called(p, s2, Give(a)) == s3;
    var s4 := Called(p, s3, Take);
    assert s4.out == multiset{b, b};
    AlignedSteps(p, s1, s2, s3, s4);
  }

  lemma AlignedSteps(p: int, s1: FrameState, s2: FrameState, s3: FrameState, s4: FrameState)
    requires var a := FrameAddress(p, 0);
      && s1 == Called(p, NO_FRAMES, Take) && s2 == Called(p, s1, Take) && s3 == Called(p, s2, Give(a))
      && s4 == Called(p, s3, Take) && a in s2.out
    ensures MayRun(p, NO_FRAMES, TwoOneOne(p))
    ensures FramesAfter(p, NO_FRAMES, TwoOneOne(p)[..3]) == s3 && FramesAfter(p, NO_FRAMES, TwoOneOne(p)) == s4
  {
    var a := FrameAddress(p, 0);
    FirstCall(p, NO_FRAMES, Take, [Take, Give(a), Take]);
    FirstCall(p, s1, Take, [Give(a), Take]);
    FirstCall(p, s2, Give(a), [Take]);
    FirstCall(p, s3, Take, []);
    assert TwoOneOne(p) == [Take] + [Take, Give(a), Take];
    assert [Take, Give(a), Take] == [Take] + [Give(a), Take];
    assert [Give(a), Take] == [Give(a)] + [Take];
    assert [Take] == [Take] + [];
    FirstCall(p, NO_FRAMES, Take, [Take, Give(a)]);
    FirstCall(p, s1, Take, [Give(a)]);
    FirstCall(p, s2, Give(a), []);
    assert TwoOneOne(p)[..3] == [Take] + [Take, Give(a)];
    assert [Take, Give(a)] == [Take] + [Give(a)];
    assert [Give(a)] == [Give(a)] + [];
  }

  lemma FirstCall(p: int, s: FrameState, c: FrameCall, rest: seq<FrameCall>)
    ensures FramesAfter(p, s, [c] + rest) == FramesAfter(p, Called(p, s, c), rest)
    ensures MayRun(p, s, [c] + rest) <==> MayCall(s, c) && MayRun(p, Called(p, s, c), rest)
  {
    assert ([c] + rest)[1..] == rest;
  }

  /** No run from an empty bitmap hands out a frame twice if and only if the base is not aligned. */
  lemma RunsSafeExactly(p: int)
    requires Fits(p)
    ensures (forall calls, a | MayRun(p, NO_FRAMES, calls) :: FramesAfter(p, NO_FRAMES, calls).out[a] <= 1)
      <==> p % PAGE != 0
  {
    if p % PAGE != 0 {
      forall calls, a | MayRun(p, NO_FRAMES, calls)
        ensures FramesAfter(p, NO_FRAMES, calls).out[a] <= 1
      {
        FramesOverARun(p, {}, NO_FRAMES, calls);
      }
    } else {
      AlignedHandsOutTwice(p);
    }
  }
}
