/** What malloc and free do, said once more without their steps: in terms of the tags in use, their
    sizes, the order of the free lists and the page source. In a state in order these determine
    every header word and every counter. */
module Outcomes {
  import opened Machine
  import opened PageSource
  import opened World
  import opened TagOps
  import opened Calls
  import opened ListLemmas
  import opened ChainLemmas
  import opened FreeLemmas
  import opened MallocLemmas
  import opened Theorems

  // ----- lists without some of their tags -----

  /** A list without the tags in `gone`, otherwise in the same order. */
  ghost function Except(l: seq<int>, gone: set<int>): seq<int> {
    if l == [] then [] else (if l[0] in gone then [] else [l[0]]) + Except(l[1..], gone)
  }

  lemma {:induction false} ExceptNone(l: seq<int>, gone: set<int>)
    requires forall j | 0 <= j < |l| :: l[j] !in gone
    ensures Except(l, gone) == l
  {
    if l != [] {
      ExceptNone(l[1..], gone);
      assert [l[0]] + l[1..] == l;
    }
  }

  lemma {:induction false} ExceptOne(l: seq<int>, k: nat)
    requires k < |l| && forall j | 0 <= j < |l| && j != k :: l[j] != l[k]
    ensures Except(l, {l[k]}) == l[..k] + l[k + 1..]
    decreases k
  {
    if k == 0 {
      ExceptNone(l[1..], {l[0]});
    } else {
      ExceptOne(l[1..], k - 1);
      assert l[1..][k - 1] == l[k];
      assert [l[0]] + (l[1..][..k - 1] + l[1..][k..]) == l[..k] + l[k + 1..];
    }
  }

  lemma {:induction false} ExceptTwice(l: seq<int>, a: set<int>, b: set<int>)
    ensures Except(Except(l, a), b) == Except(l, a + b)
  {
    if l != [] {
      var rest := Except(l[1..], a);
      ExceptTwice(l[1..], a, b);
      if l[0] in a {
        assert [] + rest == rest;
      } else {
        assert ([l[0]] + rest)[1..] == rest;
      }
    }
  }

  /** Every list of `v` is that of `w` without `gone`. */
  ghost predicate ListsExcept(w: World, v: World, gone: set<int>) {
    |v.lists| == |w.lists| && forall i | 0 <= i < |w.lists| :: v.lists[i] == Except(w.lists[i], gone)
  }

  /** And then `t` is at the front of list i. */
  ghost predicate ListsFiled(w: World, v: World, gone: set<int>, i: int, t: int) {
    && |v.lists| == |w.lists|
    && (forall j | 0 <= j < |w.lists| :: v.lists[j] == (if j == i then [t] else []) + Except(w.lists[j], gone))
  }

  lemma SameListsExceptNone(w: World, v: World)
    requires v.lists == w.lists
    ensures ListsExcept(w, v, {})
  {
    forall i | 0 <= i < |w.lists|
      ensures v.lists[i] == Except(w.lists[i], {})
    {
      ExceptNone(w.lists[i], {});
    }
  }

  lemma ListsExceptTwice(u: World, v: World, w: World, a: set<int>, b: set<int>)
    requires ListsExcept(u, v, a) && ListsExcept(v, w, b)
    ensures ListsExcept(u, w, a + b)
  {
    forall i | 0 <= i < |u.lists|
      ensures w.lists[i] == Except(u.lists[i], a + b)
    {
      ExceptTwice(u.lists[i], a, b);
    }
  }

  lemma UnfiledLists(w: World, t: int)
    requires Lists(w) && Present(w) && t in w.owner && IsFree(w, t)
    ensures ListsExcept(w, RemoveTag(w, t), {t})
  {
    var v, i := RemoveTag(w, t), At(w.tags, t).index;
    var k := FiledAt(w, t);
    ExceptOne(w.lists[i], k);
    forall j | 0 <= j < |w.lists| && j != i
      ensures v.lists[j] == Except(w.lists[j], {t})
    {
      assert IsList(w, j);
      forall n | 0 <= n < |w.lists[j]|
        ensures w.lists[j][n] != t
      {
        assert Node(w, j, n);
      }
      ExceptNone(w.lists[j], {t});
    }
  }

  lemma SameSizes(w: World, v: World)
    requires SameChains(w, v)
    ensures RealSizes(v) == RealSizes(w)
  {
  }

  // ----- free -----

  ghost predicate LeftFree(w: World, t: int) {
    At(w.tags, t).splitLeft != 0 && At(w.tags, At(w.tags, t).splitLeft).index >= 0
  }

  ghost predicate RightFree(w: World, t: int) {
    At(w.tags, t).splitRight != 0 && At(w.tags, At(w.tags, t).splitRight).index >= 0
  }

  /** The free neighbours of `t`. */
  ghost function Beside(w: World, t: int): set<int> {
    (if LeftFree(w, t) then {At(w.tags, t).splitLeft} else {})
    + (if RightFree(w, t) then {At(w.tags, t).splitRight} else {})
  }

  /** Where the bytes of `t` and its free neighbours begin, and how many they are. */
  ghost function FirstOf(w: World, t: int): int {
    if LeftFree(w, t) then At(w.tags, t).splitLeft else t
  }

  ghost function RoomOf(w: World, t: int): int {
    At(w.tags, t).realSize
    + (if LeftFree(w, t) then At(w.tags, At(w.tags, t).splitLeft).realSize else 0)
    + (if RightFree(w, t) then At(w.tags, At(w.tags, t).splitRight).realSize else 0)
  }

  /** One tag takes over the bytes of `t` and its free neighbours, which leave their lists. If it is
      a whole chunk, and five of its class are kept already, the chunk goes back to the page source;
      otherwise it goes to the front of the list of its class. */
  ghost predicate FreeOutcome(w: World, t: int, v: World) {
    var b, gone, first, room := ChunkOf(w, t), Beside(w, t), FirstOf(w, t), RoomOf(w, t);
    var i, joined, s := Class(room - 32), gone + {t}, w.src;
    if b in s.held && room == 4096 * s.held[b] && 0 <= i < |w.complete| && w.complete[i] == 5 then
      && v.owner == w.owner - joined && RealSizes(v) == RealSizes(w) - joined && ListsExcept(w, v, gone)
      && v.src == Source(s.start, s.end, s.cur, s.held - {b}, s.granted, s.returned + [Grant(b, s.held[b])])
    else
      && v.owner == w.owner - (joined - {first}) && RealSizes(v) == (RealSizes(w) - joined)[first := room]
      && ListsFiled(w, v, gone, i, first) && v.src == s
  }

  /** Tag `keep` has taken over the bytes of the tags in `dead`; those in `gone` have left their lists. */
  ghost predicate Joined(w: World, v: World, keep: int, dead: set<int>, room: int, gone: set<int>) {
    && v.owner == w.owner - dead && RealSizes(v) == (RealSizes(w) - dead)[keep := room]
    && ListsExcept(w, v, gone) && v.src == w.src && v.complete == w.complete
  }

  lemma NothingJoined(w: World, t: int)
    requires t in w.owner
    ensures Joined(w, w, t, {}, At(w.tags, t).realSize, {})
  {
    SameListsExceptNone(w, w);
    assert w.owner - {} == w.owner && RealSizes(w) - {} == RealSizes(w);
  }

  lemma MergeJoins(w: World, v: World, l: int, t: int, gone: set<int>)
    ensures t in w.owner && Merged(w, v, l, t) && ListsExcept(w, v, gone) ==>
      Joined(w, v, l, {t}, At(w.tags, l).realSize + At(w.tags, t).realSize, gone)
  {
    if t in w.owner && Merged(w, v, l, t) {
      MergedSizes(w, v, l, t);
    }
  }

  lemma MeltMerges(w: World, t: int, l: int, v: World)
    requires v == MeltStep(w, t)
    ensures Working(w, t) && LeftFree(w, t) && l == At(w.tags, t).splitLeft ==>
      l in w.owner && l < t && Merged(w, v, l, t) && ListsExcept(w, v, {l})
  {
    if Working(w, t) && LeftFree(w, t) && l == At(w.tags, t).splitLeft {
      var m := MeltLeft(w, t);
      Neighbours(w, t);
      ListedIsFree(w, l);
      MeltLeftEffect(w, t);
      ListsFrame(w, m);
      UnfiledLists(m, l);
      MeltStepEffect(w, t);
    }
  }

  lemma MeltJoins(w: World, t: int, l: int, v: World)
    requires v == MeltStep(w, t)
    ensures Working(w, t) && LeftFree(w, t) && l == At(w.tags, t).splitLeft ==>
      && Merged(w, v, l, t)
      && Joined(w, v, l, {t}, At(w.tags, l).realSize + At(w.tags, t).realSize, {l})
  {
    MeltMerges(w, t, l, v);
    MergeJoins(w, v, l, t, {l});
  }

  /** `u` is `v` with the free right neighbour of `l`, if there is one, joined to it. */
  ghost predicate RightJoined(v: World, u: World, l: int) {
    var r := At(v.tags, l).splitRight;
    if RightFree(v, l) then Joined(v, u, l, {r}, At(v.tags, l).realSize + At(v.tags, r).realSize, {r})
    else u == v
  }

  lemma AbsorbMerges(w: World, t: int, r: int, v: World)
    requires v == AbsorbRight(w, t)
    ensures Working(w, t) && RightFree(w, t) && r == At(w.tags, t).splitRight ==>
      r in w.owner && Merged(w, v, t, r) && ListsExcept(w, v, {r})
  {
    if Working(w, t) && RightFree(w, t) && r == At(w.tags, t).splitRight {
      AbsorbEffect(w, t);
      UnfiledLists(w, r);
      assert v.lists == RemoveTag(w, r).lists;
    }
  }

  lemma AbsorbIs(w: World, t: int, v: World, u: World)
    requires v == AbsorbRight(w, t) && u == Absorb(w, t)
    ensures u == if RightFree(w, t) then v else w
  {
  }

  lemma RightIsJoined(w: World, t: int, r: int, v: World, u: World)
    requires r == At(w.tags, t).splitRight && u == if RightFree(w, t) then v else w
    ensures (RightFree(w, t) ==> t in w.owner && Merged(w, v, t, r) && ListsExcept(w, v, {r})) ==> RightJoined(w, u, t)
  {
    MergeJoins(w, v, t, r, {r});
  }

  lemma AbsorbJoins(w: World, t: int, r: int, v: World, u: World)
    requires v == AbsorbRight(w, t) && u == Absorb(w, t) && r == At(w.tags, t).splitRight
    ensures Working(w, t) ==> RightJoined(w, u, t)
  {
    AbsorbIs(w, t, v, u);
    AbsorbMerges(w, t, r, v);
    RightIsJoined(w, t, r, v, u);
  }

  /** What melting leaves of the right-hand side. */
  lemma MeltKeepsRight(w: World, v: World, l: int, t: int)
    requires Tiling(w) && t in w.owner && At(w.tags, t).splitLeft == l != NULL && Merged(w, v, l, t)
    ensures At(v.tags, l).splitRight == At(w.tags, t).splitRight
    ensures RightFree(v, l) <==> RightFree(w, t)
    ensures RightFree(w, t) ==>
      At(v.tags, At(w.tags, t).splitRight).realSize == At(w.tags, At(w.tags, t).splitRight).realSize
  {
    Neighbours(w, t);
  }

  lemma JoinedTwice(u: World, v: World, w: World, t: int, l: int, r: int, x: int, y: int)
    requires Joined(u, v, l, {t}, x, {l}) && Joined(v, w, l, {r}, y, {r}) && l in u.owner
    ensures Joined(u, w, l, {t, r}, y, {l, r})
  {
    ListsExceptTwice(u, v, w, {l}, {r});
    assert {l} + {r} == {l, r};
    assert u.owner - {t} - {r} == u.owner - {t, r};
    assert (RealSizes(u) - {t})[l := x] - {r}
        == if l == r then RealSizes(u) - {t, r} else (RealSizes(u) - {t, r})[l := x];
  }

  /** `t` and its free neighbours are one tag of `u`. */
  ghost predicate AllJoined(w: World, u: World, t: int, l: int) {
    && l == FirstOf(w, t)
    && Joined(w, u, l, (Beside(w, t) + {t}) - {l}, RoomOf(w, t), Beside(w, t))
  }

  lemma JoinedBoth(w: World, v: World, u: World, t: int, l: int, r: int, x: int, y: int)
    requires LeftFree(w, t) && RightFree(w, t) && l == At(w.tags, t).splitLeft && r == At(w.tags, t).splitRight
    requires l < t < r && l in w.owner && y == RoomOf(w, t)
    ensures Joined(w, v, l, {t}, x, {l}) && Joined(v, u, l, {r}, y, {r}) ==> AllJoined(w, u, t, l)
  {
    if Joined(w, v, l, {t}, x, {l}) && Joined(v, u, l, {r}, y, {r}) {
      JoinedTwice(w, v, u, t, l, r, x, y);
      assert Beside(w, t) == {l, r};
      assert ({l, r} + {t}) - {l} == {t, r};
    }
  }

  lemma JoinedLeft(w: World, v: World, t: int, l: int)
    requires LeftFree(w, t) && !RightFree(w, t) && l == At(w.tags, t).splitLeft < t
    ensures Joined(w, v, l, {t}, At(w.tags, l).realSize + At(w.tags, t).realSize, {l}) ==>
      AllJoined(w, v, t, l)
  {
    assert Beside(w, t) == {l};
    assert ({l} + {t}) - {l} == {t};
  }

  lemma JoinedRight(w: World, v: World, t: int, r: int)
    requires !LeftFree(w, t) && RightFree(w, t) && r == At(w.tags, t).splitRight > t
    ensures Joined(w, v, t, {r}, At(w.tags, t).realSize + At(w.tags, r).realSize, {r}) ==>
      AllJoined(w, v, t, t)
  {
    assert Beside(w, t) == {r};
    assert ({r} + {t}) - {t} == {r};
  }

  lemma JoinedAlone(w: World, t: int)
    requires !LeftFree(w, t) && !RightFree(w, t) && t in w.owner
    ensures AllJoined(w, w, t, t)
  {
    NothingJoined(w, t);
    assert Beside(w, t) == {};
    assert {} + {t} - {t} == {};
  }

  lemma LeftThenRight(w: World, t: int, v: World, l: int, u: World)
    requires t in w.owner && l == At(w.tags, t).splitLeft
    ensures
      && Tiling(w) && LeftFree(w, t) && Merged(w, v, l, t) && RightJoined(v, u, l)
      && Joined(w, v, l, {t}, At(w.tags, l).realSize + At(w.tags, t).realSize, {l})
      ==> AllJoined(w, u, t, l)
  {
    var r, x := At(w.tags, t).splitRight, At(w.tags, l).realSize + At(w.tags, t).realSize;
    if Tiling(w) && LeftFree(w, t) && Merged(w, v, l, t) {
      Neighbours(w, t);
      MeltKeepsRight(w, v, l, t);
      if RightFree(w, t) {
        JoinedBoth(w, v, u, t, l, r, x, At(v.tags, l).realSize + At(v.tags, r).realSize);
      } else {
        JoinedLeft(w, u, t, l);
      }
    }
  }

  lemma RightOnly(w: World, t: int, u: World)
    requires Tiling(w) && t in w.owner && !LeftFree(w, t)
    ensures RightJoined(w, u, t) ==> AllJoined(w, u, t, t)
  {
    Neighbours(w, t);
    if RightFree(w, t) {
      JoinedRight(w, u, t, At(w.tags, t).splitRight);
    } else {
      JoinedAlone(w, t);
    }
  }

  /** Both loops together. */
  lemma LoopsJoin(w: World, t: int, v: World, l: int)
    requires Working(w, t) && (v, l) == Melt(w, t)
    ensures Working(v, l) ==> AllJoined(w, Absorb(v, l), t, l)
  {
    var u := Absorb(v, l);
    AbsorbJoins(v, l, At(v.tags, l).splitRight, AbsorbRight(v, l), u);
    if LeftFree(w, t) {
      MeltJoins(w, t, l, v);
      LeftThenRight(w, t, v, l, u);
    } else {
      RightOnly(w, t, u);
    }
  }

  /** A tag is a whole chunk exactly when it has all its bytes. */
  lemma WholeBySize(w: World, t: int)
    requires Tiling(w) && t in w.owner
    ensures w.owner[t] in w.src.held
    ensures Whole(At(w.tags, t)) <==> At(w.tags, t).realSize == PAGE * w.src.held[w.owner[t]]
    ensures Whole(At(w.tags, t)) ==> w.owner[t] == t
  {
    assert TagTiles(w, t);
    if Whole(At(w.tags, t)) {
      WholeIsChunk(w, t);
    }
  }

  // ----- the ending of free -----

  /** A chunk that has become one tag goes back when five of its class are kept; any other tag, and
      any other chunk, goes to the front of the list of its class. */
  ghost predicate Shelved(u: World, t: int, v: World) {
    var b, room := ChunkOf(u, t), At(u.tags, t).realSize;
    var i, s := Class(room - 32), u.src;
    if b in s.held && room == 4096 * s.held[b] && 0 <= i < |u.complete| && u.complete[i] == 5 then
      && v.owner == u.owner - {t} && RealSizes(v) == RealSizes(u) - {t} && v.lists == u.lists
      && v.src == Source(s.start, s.end, s.cur, s.held - {b}, s.granted, s.returned + [Grant(b, s.held[b])])
    else
      && v.owner == u.owner && RealSizes(v) == RealSizes(u) && v.src == s
      && |v.lists| == |u.lists|
      && (forall j | 0 <= j < |u.lists| :: v.lists[j] == (if j == i then [t] else []) + u.lists[j])
  }

  lemma InsertShelves(u: World, t: int, i: int)
    requires Lists(u) && Present(u) && t in u.owner && At(u.tags, t).index == -1 && MIN_EXP <= i < MAX_EXP
    ensures var v := InsertTag(u, t, i);
      && v.owner == u.owner && RealSizes(v) == RealSizes(u) && v.src == u.src && |v.lists| == |u.lists|
      && (forall j | 0 <= j < |u.lists| :: v.lists[j] == (if j == i then [t] else []) + u.lists[j])
  {
    InsertTagEffect(u, t, i);
  }

  lemma ReleaseShelves(u: World, t: int)
    requires Working(u, t) && Whole(At(u.tags, t))
    ensures var v, s := Release(u, t, PagesBack(At(u.tags, t).realSize)), u.src;
      && t in s.held
      && v.owner == u.owner - {t} && RealSizes(v) == RealSizes(u) - {t} && v.lists == u.lists
      && v.src == Source(s.start, s.end, s.cur, s.held - {t}, s.granted, s.returned + [Grant(t, s.held[t])])
  {
    PagesBackExact(u, t);
    assert RealSizes(Release(u, t, u.src.held[t])) == RealSizes(u) - {t};
  }

  lemma ShelveIs(u: World, t: int)
    requires Working(u, t)
    ensures Shelved(u, t, Shelve(u, t))
  {
    ClassInRange(u, t);
    WholeBySize(u, t);
    var i := ClassOf(u, t);
    if !Whole(At(u.tags, t)) {
      InsertShelves(u, t, i);
    } else if u.complete[i] == MAX_COMPLETE {
      ReleaseShelves(u, t);
    } else {
      var x := Recount(u, i, 1);
      SameButCounts(u, x.complete);
      InsertShelves(x, t, i);
      assert RealSizes(x) == RealSizes(u);
    }
  }

  lemma ShelvedAfterJoin(w: World, t: int, u: World, l: int, v: World)
    requires t in w.owner && t !in Beside(w, t) && (LeftFree(w, t) ==> l in w.owner && w.owner[l] == w.owner[t])
    requires l in u.owner
    ensures AllJoined(w, u, t, l) && Shelved(u, l, v) ==> FreeOutcome(w, t, v)
  {
    if AllJoined(w, u, t, l) && Shelved(u, l, v) {
      var joined := Beside(w, t) + {t};
      assert ChunkOf(u, l) == ChunkOf(w, t);
      assert At(u.tags, l).realSize == RealSizes(u)[l] == RoomOf(w, t);
      assert w.owner - (joined - {l}) - {l} == w.owner - joined;
      assert (RealSizes(w) - (joined - {l}))[l := RoomOf(w, t)] - {l} == RealSizes(w) - joined;
      assert (RealSizes(w) - (joined - {l}))[l := RoomOf(w, t)] == (RealSizes(w) - joined)[l := RoomOf(w, t)];
    }
  }

  lemma BesideOthers(w: World, t: int)
    requires Tiling(w) && t in w.owner
    ensures t !in Beside(w, t) && FirstOf(w, t) in w.owner && w.owner[FirstOf(w, t)] == w.owner[t]
  {
    Neighbours(w, t);
    assert TagTiles(w, t);
  }

  /** What free of a live block does. */
  lemma FreeExactly(w: World, t: int)
    requires Inv(w) && IsLive(w, t)
    ensures FreeOutcome(w, t, Free(w, t + HEADER))
  {
    LiveIsWorking(w, t);
    BelowCursor(w, t);
    MeltOk(w, t);
    var (v, l) := Melt(w, t);
    AbsorbOk(v, l);
    var u := Absorb(v, l);
    LoopsJoin(w, t, v, l);
    ShelveIs(u, l);
    BesideOthers(w, t);
    ShelvedAfterJoin(w, t, u, l, Shelve(u, l));
    FreeParts(w, t);
  }

  // ----- when a chunk goes back -----

  lemma OnlyNeighboursLeft(w: World, t: int, a: int)
    requires Inv(w) && t in w.owner && a in w.owner && a != t && w.owner[a] == w.owner[t]
    requires RoomOf(w, t) == PAGE * w.src.held[w.owner[t]]
    ensures a in Beside(w, t)
  {
    var l, r := At(w.tags, t).splitLeft, At(w.tags, t).splitRight;
    Neighbours(w, t);
    assert TagTiles(w, t) && TagTiles(w, a);
    assert Clear(w, t, a) && Clear(w, a, t);
    assert LeftFree(w, t) ==> TagTiles(w, l) && Clear(w, l, a) && Clear(w, a, l);
    assert RightFree(w, t) ==> TagTiles(w, r) && Clear(w, r, a) && Clear(w, a, r);
  }

  lemma NeighboursAreEnds(w: World, t: int)
    requires Inv(w) && IsLive(w, t)
    requires forall a | a in w.owner && a != t && w.owner[a] == w.owner[t] :: At(w.tags, a).index >= 0
    ensures w.owner[t] in w.src.held && RoomOf(w, t) == PAGE * w.src.held[w.owner[t]]
  {
    var l, r := At(w.tags, t).splitLeft, At(w.tags, t).splitRight;
    Neighbours(w, t);
    assert TagTiles(w, t);
    if l != NULL {
      assert TagTiles(w, l);
      Neighbours(w, l);
      var k := At(w.tags, l).splitLeft;
      assert k in w.owner ==> NotBothFree(w, k, NULL);
    }
    if r != NULL {
      assert TagTiles(w, r);
      Neighbours(w, r);
      assert NotBothFree(w, r, NULL);
    }
  }

  /** No other tag of the chunk of `t` is in use by a block. */
  ghost predicate OthersFree(w: World, t: int) {
    forall a | a in w.owner && a != t && ChunkOf(w, a) == ChunkOf(w, t) :: At(w.tags, a).index >= 0
  }

  /** Joined with its free neighbours a block is its whole chunk exactly when the others of the
      chunk are all free. */
  lemma ChunkAllFree(w: World, t: int)
    requires Inv(w) && IsLive(w, t)
    ensures ChunkOf(w, t) in w.src.held
    ensures RoomOf(w, t) == PAGE * w.src.held[ChunkOf(w, t)] <==> OthersFree(w, t)
  {
    if RoomOf(w, t) == PAGE * w.src.held[w.owner[t]] {
      forall a | a in w.owner && a != t && w.owner[a] == w.owner[t]
        ensures At(w.tags, a).index >= 0
      {
        OnlyNeighboursLeft(w, t, a);
      }
    } else if OthersFree(w, t) {
      NeighboursAreEnds(w, t);
    }
  }

  lemma ChunkClass(w: World, b: int)
    requires SourceOk(w.src) && Counts(w) && b in w.src.held
    ensures 0 <= Class(4096 * w.src.held[b] - 32) < |w.complete|
  {
    ClassRange(4096 * w.src.held[b] - 32);
  }

  /** The chunk of `t` goes back exactly when nothing else of it is live and five of its class are
      kept already; otherwise the page source is unchanged. */
  ghost predicate ReturnsChunk(w: World, t: int, v: World) {
    var b, s := ChunkOf(w, t), w.src;
    && b in s.held && 0 <= Class(4096 * s.held[b] - 32) < |w.complete|
    && v.src ==
       if (forall a | a in w.owner && a != t && ChunkOf(w, a) == b :: At(w.tags, a).index >= 0)
         && w.complete[Class(4096 * s.held[b] - 32)] == 5
       then Source(s.start, s.end, s.cur, s.held - {b}, s.granted, s.returned + [Grant(b, s.held[b])])
       else s
  }

  lemma ReturnsFor(w: World, t: int, v: World)
    requires Inv(w) && IsLive(w, t)
    ensures FreeOutcome(w, t, v) ==> ReturnsChunk(w, t, v)
  {
    ChunkAllFree(w, t);
    ChunkClass(w, ChunkOf(w, t));
  }

  /** When free hands a chunk back. */
  lemma ReturnsExactly(w: World, t: int)
    requires Inv(w) && IsLive(w, t)
    ensures ReturnsChunk(w, t, Free(w, t + HEADER))
  {
    FreeExactly(w, t);
    ReturnsFor(w, t, Free(w, t + HEADER));
  }

  // ----- malloc -----

  /** Tag `t` of `room` bytes in the chunk at `base` leaves its list and becomes a block of `size`
      bytes. What is left over becomes a tag of its own if it has 256 bytes beside a header. */
  ghost predicate TakesTag(w: World, v: World, t: int, base: int, room: int, size: int) {
    var n := t + 32 + size;
    if room >= size + 320 then
      && v.owner == w.owner[t := base][n := base]
      && RealSizes(v) == RealSizes(w)[t := size + 32][n := room - size - 32]
      && ListsFiled(w, v, {t}, Class(room - size - 64), n)
    else
      v.owner == w.owner[t := base] && RealSizes(v) == RealSizes(w)[t := room] && ListsExcept(w, v, {t})
  }

  /** The block returned is the first tag of the request's list that has room for it and a second
      header; if there is none, a chunk of the bytes needed at the cursor; if that would reach the
      end of the heap, NULL, and nothing has changed. */
  ghost predicate MallocOutcome(w: World, size: int, v: World, ptr: int) {
    var l, s, need := ListOf(w, Class(size)), w.src, Need(size);
    && (forall k | 0 <= k < |l| && At(w.tags, l[k]).realSize >= size + 64
            && (forall j | 0 <= j < k :: At(w.tags, l[j]).realSize < size + 64) ::
          ptr == l[k] + 32 && v.src == s && TakesTag(w, v, l[k], ChunkOf(w, l[k]), At(w.tags, l[k]).realSize, size))
    && ((forall a | a in l :: At(w.tags, a).realSize < size + 64) ==>
          if s.cur + need < s.end then
            && ptr == s.cur + 32 && TakesTag(w, v, s.cur, s.cur, need, size)
            && v.src == Source(s.start, s.end, s.cur + need, s.held[s.cur := need / 4096],
                               s.granted + [Grant(s.cur, need / 4096)], s.returned)
          else ptr == 0 && v == w)
  }

  /** The bytes of a new chunk: whole pages, at least sixteen, and no more than the request needs. */
  lemma NeedExactly(size: int)
    requires 0 <= size
    ensures Need(size) % 4096 == 0 && Need(size) >= 16 * 4096 && Need(size) >= size + 32
    ensures Need(size) == 16 * 4096 || Need(size) < size + 32 + 4096
  {
  }

  lemma NotListed(w: World, t: int, i: int)
    requires Lists(w) && 0 <= i < MAX_EXP && (t !in w.owner || At(w.tags, t).index == -1)
    ensures Except(w.lists[i], {t}) == w.lists[i]
  {
    assert IsList(w, i);
    forall k | 0 <= k < |w.lists[i]|
      ensures w.lists[i][k] != t
    {
      assert Node(w, i, k);
    }
    ExceptNone(w.lists[i], {t});
  }

  lemma NoneListed(w: World, v: World, t: int)
    requires Lists(w) && (t !in w.owner || At(w.tags, t).index == -1) && v.lists == w.lists
    ensures ListsExcept(w, v, {t})
  {
    forall i | 0 <= i < |w.lists|
      ensures v.lists[i] == Except(w.lists[i], {t})
    {
      NotListed(w, t, i);
    }
  }

  lemma CutSizes(w: World, v: World, t: int, n: int)
    requires Cuttable(w, t) && Cut(w, v, t, n) && n !in w.owner
    ensures var g := At(w.tags, t);
      RealSizes(v) == RealSizes(w)[t := g.size + 32][n := g.realSize - g.size - 32]
  {
  }

  /** From a tag in no list, all but a header and `size` bytes has become a tag of its own. */
  ghost predicate SplitOff(w: World, v: World, t: int, room: int, size: int) {
    var n := t + 32 + size;
    && v.owner == w.owner[n := ChunkOf(w, t)]
    && RealSizes(v) == RealSizes(w)[t := size + 32][n := room - size - 32]
    && |v.lists| == |w.lists|
    && (forall j | 0 <= j < |w.lists| ::
          v.lists[j] == (if j == Class(room - size - 64) then [n] else []) + w.lists[j])
  }

  lemma SplitTakes(w: World, t: int, u: World)
    requires Working(w, t) && Coalesced(w, t) && Cuttable(w, t) && u == SplitTag(w, t)
    ensures u.src == w.src && SplitOff(w, u, t, At(w.tags, t).realSize, At(w.tags, t).size)
  {
    var v, n := CutTag(w, t), CutPoint(w, t);
    CutPointIsNew(w, t);
    CutEffect(w, t);
    CutOk(w, t);
    CutSizes(w, v, t, n);
    ClassInRange(v, n);
    InsertShelves(v, n, ClassOf(v, n));
    SplitIs(w, t, v, n);
  }

  /** The same tags in the same lists and chunks. */
  ghost predicate SameShape(w: World, v: World) {
    RealSizes(v) == RealSizes(w) && v.owner == w.owner && v.lists == w.lists && v.src == w.src
  }

  lemma SetSizeSame(w: World, t: int, size: int)
    requires t in w.tags && t != NULL
    ensures SameShape(w, PutSize(w, t, size))
  {
  }

  lemma SplitIsTaken(w: World, v: World, u: World, t: int, room: int, size: int)
    requires Lists(w) && t in w.owner && At(w.tags, t).index == -1 && room >= size + 320 && SameShape(w, v)
    ensures SplitOff(v, u, t, room, size) ==> TakesTag(w, u, t, ChunkOf(w, t), room, size)
  {
    forall j | 0 <= j < |w.lists|
      ensures Except(w.lists[j], {t}) == w.lists[j]
    {
      NotListed(w, t, j);
    }
    assert w.owner[t := w.owner[t]] == w.owner;
  }

  lemma KeptIsTaken(w: World, u: World, t: int, room: int, size: int)
    requires Lists(w) && t in w.owner && At(w.tags, t).index == -1 && room == At(w.tags, t).realSize < size + 320
    ensures SameShape(w, u) ==> TakesTag(w, u, t, ChunkOf(w, t), room, size)
  {
    if SameShape(w, u) {
      NoneListed(w, u, t);
      assert w.owner[t := w.owner[t]] == w.owner;
      assert RealSizes(w)[t := room] == RealSizes(w);
    }
  }

  /** The end of malloc, for a tag that is in no list. */
  lemma PlaceTakes(w: World, t: int, size: int, u: World)
    requires Working(w, t) && Coalesced(w, t) && 0 <= size && size + HEADER <= At(w.tags, t).realSize
    requires u == Place(w, t, size)
    ensures u.src == w.src && TakesTag(w, u, t, ChunkOf(w, t), At(w.tags, t).realSize, size)
  {
    var v := PutSize(w, t, size);
    SetSizeOk(w, t, size);
    SetSizeSame(w, t, size);
    RemainderExact(v, t);
    if Splits(v, t) {
      SplitTakes(v, t, u);
      SplitIsTaken(w, v, u, t, At(w.tags, t).realSize, size);
    } else {
      KeptIsTaken(w, u, t, At(w.tags, t).realSize, size);
    }
  }

  /** What is taken from `u`, which is `w` with `t` off its list, is taken from `w`. */
  lemma TakesFrom(w: World, u: World, v: World, t: int, base: int, room: int, size: int)
    requires u.owner == w.owner[t := base] && RealSizes(u) == RealSizes(w)[t := room] && ListsExcept(w, u, {t})
    ensures TakesTag(u, v, t, base, room, size) ==> TakesTag(w, v, t, base, room, size)
  {
    if TakesTag(u, v, t, base, room, size) {
      assert w.owner[t := base][t := base] == w.owner[t := base];
      assert RealSizes(w)[t := room][t := size + 32] == RealSizes(w)[t := size + 32];
      assert RealSizes(w)[t := room][t := room] == RealSizes(w)[t := room];
      forall i | 0 <= i < |w.lists|
        ensures Except(u.lists[i], {t}) == Except(w.lists[i], {t})
      {
        ExceptTwice(w.lists[i], {t}, {t});
        assert {t} + {t} == {t};
      }
    }
  }

  lemma UnfiledShape(w: World, v: World, u: World, t: int)
    requires SameChains(w, v) && ListsExcept(w, v, {t}) && u == v.(complete := u.complete) && t in w.owner
    ensures u.owner == w.owner[t := ChunkOf(w, t)] && RealSizes(u) == RealSizes(w)[t := At(w.tags, t).realSize]
    ensures ListsExcept(w, u, {t}) && u.src == w.src
  {
    SameSizes(w, v);
    assert RealSizes(u) == RealSizes(v);
    assert w.owner[t := w.owner[t]] == w.owner;
    assert RealSizes(w)[t := At(w.tags, t).realSize] == RealSizes(w);
  }

  lemma ReuseTakes(w: World, t: int, u: World)
    requires Inv(w) && t in w.owner && IsFree(w, t) && u == Reuse(w, t)
    ensures u.owner == w.owner[t := ChunkOf(w, t)] && RealSizes(u) == RealSizes(w)[t := At(w.tags, t).realSize]
    ensures ListsExcept(w, u, {t}) && u.src == w.src
  {
    RemoveTagEffect(w, t);
    UnfiledLists(w, t);
    UnfiledShape(w, RemoveTag(w, t), u, t);
  }

  lemma ChunkTakes(w: World, v: World, t: int, pages: int, size: int)
    requires ChunkAdded(w, v, t, pages, size) && t == w.src.cur && t !in w.owner && Lists(w)
    ensures var s := w.src;
      && v.owner == w.owner[t := t] && RealSizes(v) == RealSizes(w)[t := PAGE * pages] && ListsExcept(w, v, {t})
      && v.src == Source(s.start, s.end, s.cur + PAGE * pages, s.held[s.cur := pages],
                         s.granted + [Grant(s.cur, pages)], s.returned)
  {
    NoneListed(w, v, t);
  }

  lemma NewTagTakes(w: World, size: int)
    requires Inv(w) && 0 <= size && Allows(w.src, PagesFor(size)) && !Overcommits(w.src, size)
    ensures var u, t, s, need := NewTag(w, size), w.src.cur, w.src, Need(size);
      && u.owner == w.owner[t := t] && RealSizes(u) == RealSizes(w)[t := need] && ListsExcept(w, u, {t})
      && u.src == Source(s.start, s.end, s.cur + need, s.held[s.cur := need / 4096],
                         s.granted + [Grant(s.cur, need / 4096)], s.returned)
  {
    GrantExact(w.src, size);
    NewTagIsGrown(w, size);
    NewTagOk(w, size);
    ChunkTakes(w, NewTag(w, size), w.src.cur, PagesFor(size), size);
    assert Need(size) / 4096 == PagesFor(size);
  }

  lemma ReuseOutcome(w: World, size: int, t: int)
    requires Inv(w) && 0 <= size < TWO32 && t == Candidate(w, size) != NULL
    ensures var v := Place(Reuse(w, t), t, size);
      v.src == w.src && TakesTag(w, v, t, ChunkOf(w, t), At(w.tags, t).realSize, size)
  {
    var u := Reuse(w, t);
    CandidateFits(w, size);
    ReuseObtained(w, size);
    ReuseTakes(w, t, u);
    ReuseOk(w, t);
    PlaceTakes(u, t, size, Place(u, t, size));
    TakesFrom(w, u, Place(u, t, size), t, ChunkOf(w, t), At(w.tags, t).realSize, size);
  }

  lemma NewTagOutcome(w: World, size: int)
    requires Inv(w) && 0 <= size && Allows(w.src, PagesFor(size)) && !Overcommits(w.src, size)
    ensures var u, t := NewTag(w, size), w.src.cur;
      Place(u, t, size).src == u.src && TakesTag(w, Place(u, t, size), t, t, Need(size), size)
  {
    var u, t := NewTag(w, size), w.src.cur;
    NewTagOk(w, size);
    NewTagTakes(w, size);
    PlaceTakes(u, t, size, Place(u, t, size));
    TakesFrom(w, u, Place(u, t, size), t, t, Need(size), size);
  }

  /** What malloc does, for every request it can be trusted with. */
  lemma MallocExactly(w: World, size: int)
    requires Inv(w) && Servable(w, size)
    ensures MallocOutcome(w, size, Malloc(w, size).0, Malloc(w, size).1)
  {
    var t := Candidate(w, size);
    CandidateExact(w, size);
    ObtainParts(w, size, t);
    MallocParts(w, size, Obtain(w, size).0, Obtain(w, size).1);
    if t != NULL {
      ReuseOutcome(w, size, t);
      CandidateFits(w, size);
    } else {
      GrantExact(w.src, size);
      if Allows(w.src, PagesFor(size)) {
        NewTagOutcome(w, size);
        NewTagTakes(w, size);
      }
    }
  }
}
