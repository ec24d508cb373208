/** What a thread in the critical section writes, stage by stage, beside the blocks others hold. */
module Interference {
  import opened Machine
  import opened World
  import opened TagOps
  import opened Calls
  import opened ListLemmas
  import opened ChainLemmas
  import opened FreeLemmas
  import opened MallocLemmas
  import opened Theorems
  import opened Runs
  import opened Overcommit
  import opened Footprint
  import opened CriticalSection
  import opened Spinlock

  // ----- the state a stage finds -----

  /** What the stages before `st` have made of the state `b` that the call found. */
  ghost predicate Midway(b: World, w: World, c: Call, st: Stage) {
    && (st.Enter? || st.Melting? || st.Grow? || st.Unfile? ==> w == b)
    && (st.Unfile? || st.Uncount? ==> c.DoMalloc? && st.t == Candidate(b, c.size) != NULL)
    && (st.Uncount? ==> w == RemoveTag(b, st.t) && st.i == At(b.tags, st.t).index)
    && (st.Grow? ==> c.DoMalloc? && Candidate(b, c.size) == NULL)
    && (st.Sizing? || st.Splitting? ==> c.DoMalloc? && st.t != NULL && st.t == Obtain(b, c.size).1)
    && (st.Sizing? ==> w == Obtain(b, c.size).0)
    && (st.Splitting? ==> w == PutSize(Obtain(b, c.size).0, st.t, c.size))
    && (st.Melting? ==> c.DoFree? && st.t == c.ptr - HEADER)
    && (st.UnfileLeft? ==> c.DoFree? && LeftIsFree(b, c.ptr - HEADER))
    && (st.UnfileLeft? ==> st.t == At(b.tags, c.ptr - HEADER).splitLeft && w == MeltLeft(b, c.ptr - HEADER))
    && (st.Absorbing? || st.Shelving? ==> c.DoFree? && st.t == Melt(b, c.ptr - HEADER).1)
    && (st.Absorbing? ==> w == Melt(b, c.ptr - HEADER).0)
    && (st.Shelving? ==> w == Absorb(Melt(b, c.ptr - HEADER).0, st.t))
  }

  lemma ReuseIsMidway(b: World, w: World, c: Call, t: int, i: int)
    requires Midway(b, w, c, Uncount(t, i))
    ensures Midway(b, Work(w, c, Uncount(t, i)).0, c, Sizing(t))
  {
    ObtainParts(b, c.size, t);
  }

  lemma GrowIsMidway(b: World, w: World, c: Call)
    requires Midway(b, w, c, Grow) && b.src.cur != NULL
    ensures Midway(b, Work(w, c, Grow).0, c, Work(w, c, Grow).1)
  {
    ObtainParts(b, c.size, NULL);
  }

  /** Each stage leaves what the next one expects. */
  lemma WorkIsMidway(b: World, w: World, c: Call, st: Stage)
    requires Midway(b, w, c, st) && !st.Leave? && b.src.cur != NULL
    ensures Midway(b, Work(w, c, st).0, c, Work(w, c, st).1)
  {
    match st
    case Uncount(t, i) => ReuseIsMidway(b, w, c, t, i);
    case Grow => GrowIsMidway(b, w, c);
    case _ =>
  }

  // ----- what a stage writes -----

  lemma WritesIntoMore(v: World, w: World, s: set<int>, more: set<int>)
    requires WritesIn(v, w, s) && s <= more
    ensures WritesIn(v, w, more)
  {
  }

  /** The headers in use only become more in malloc, and what it obtains has room. */
  ghost predicate Grows(b: World, size: int) {
    var (v, u) := Obtain(b, size);
    && b.owner.Keys <= v.owner.Keys <= Malloc(b, size).0.owner.Keys && WritesIn(b, v, v.owner.Keys)
    && (u != NULL ==> Malloc(b, size).0 == Place(v, u, size))
    && (u != NULL ==> Working(v, u) && Coalesced(v, u) && size + HEADER <= At(v.tags, u).realSize)
  }

  lemma MallocGrowsOwners(b: World, size: int)
    requires Inv(b) && Servable(b, size)
    ensures Grows(b, size)
  {
    var (v, u) := Obtain(b, size);
    ObtainWrites(b, size);
    ObtainParts(b, size, Candidate(b, size));
    MallocParts(b, size, v, u);
    if u != NULL {
      ObtainOk(b, size);
      PlaceWrites(v, u, size);
    }
  }

  lemma UnfileWrites(b: World, size: int)
    requires Inv(b) && Servable(b, size) && Candidate(b, size) != NULL
    ensures WritesIn(b, RemoveTag(b, Candidate(b, size)), b.owner.Keys)
  {
    CandidateFits(b, size);
    RemoveTagWrites(b, Candidate(b, size));
  }

  lemma SplittingWrites(v: World, t: int, size: int)
    requires 0 <= size && size + HEADER <= At(v.tags, t).realSize
    ensures Working(v, t) && Coalesced(v, t) ==>
      WritesIn(PutSize(v, t, size), Place(v, t, size), Place(v, t, size).owner.Keys)
  {
    var w := PutSize(v, t, size);
    if Working(v, t) && Coalesced(v, t) {
      SetSizeOk(v, t, size);
      if Splits(w, t) {
        RemainderExact(w, t);
        SplitWrites(w, t);
      }
    }
  }

  lemma UncountWrites(w: World, c: Call, t: int, i: int, s: set<int>)
    ensures WritesIn(w, Work(w, c, Uncount(t, i)).0, s)
  {
  }

  lemma GrowWrites(b: World, c: Call)
    requires c.DoMalloc? && Grows(b, c.size) && Candidate(b, c.size) == NULL
    ensures WritesIn(b, Work(b, c, Grow).0, Malloc(b, c.size).0.owner.Keys)
  {
    ObtainParts(b, c.size, NULL);
  }

  lemma PutSizeWrites(w: World, c: Call, t: int, s: set<int>)
    requires t in s
    ensures WritesIn(w, Work(w, c, Sizing(t)).0, s)
  {
  }

  lemma SizingWrites(b: World, c: Call, t: int)
    requires c.DoMalloc? && Grows(b, c.size) && t == Obtain(b, c.size).1 != NULL
    ensures WritesIn(Obtain(b, c.size).0, Work(Obtain(b, c.size).0, c, Sizing(t)).0, Malloc(b, c.size).0.owner.Keys)
  {
    PutSizeWrites(Obtain(b, c.size).0, c, t, Malloc(b, c.size).0.owner.Keys);
  }

  /** In malloc: only headers that are in use when the call returns. */
  lemma MallocStageWrites(b: World, w: World, c: Call, st: Stage)
    requires Inv(b) && c.DoMalloc? && Servable(b, c.size) && Midway(b, w, c, st) && !st.Leave?
    ensures WritesIn(w, Work(w, c, st).0, Malloc(b, c.size).0.owner.Keys)
  {
    MallocGrowsOwners(b, c.size);
    match st
    case Enter =>
    case Unfile(_) => UnfileWrites(b, c.size);
    case Uncount(t, i) => UncountWrites(w, c, t, i, Malloc(b, c.size).0.owner.Keys);
    case Grow => GrowWrites(b, c);
    case Sizing(t) => SizingWrites(b, c, t);
    case Splitting(t) => SplittingWrites(Obtain(b, c.size).0, t, c.size);
    case _ =>
  }

  lemma MeltStageWrites(b: World, t: int)
    requires Inv(b) && IsLive(b, t) && LeftIsFree(b, t)
    ensures var l, m := At(b.tags, t).splitLeft, MeltLeft(b, t);
      WritesIn(b, m, b.owner.Keys) && WritesIn(m, RemoveTag(m, l), b.owner.Keys)
  {
    var l, m := At(b.tags, t).splitLeft, MeltLeft(b, t);
    LiveIsWorking(b, t);
    Neighbours(b, t);
    MeltLeftEffect(b, t);
    MeltLeftWrites(b, t);
    ListsFrame(b, m);
    RemoveTagWrites(m, l);
    WritesIntoMore(m, RemoveTag(m, l), m.owner.Keys, b.owner.Keys);
  }

  lemma LastStagesWrite(b: World, t: int)
    requires Inv(b) && IsLive(b, t)
    ensures var (v, l) := Melt(b, t); var u := Absorb(v, l);
      WritesIn(v, u, b.owner.Keys) && WritesIn(u, Shelve(u, l), b.owner.Keys)
  {
    var (v, l) := Melt(b, t);
    LiveIsWorking(b, t);
    MeltOk(b, t);
    AbsorbOk(v, l);
    if LeftIsFree(b, t) {
      MeltStepWrites(b, t);
    }
    if RightIsFree(v, l) {
      AbsorbWrites(v, l);
    }
    ShelveWrites(Absorb(v, l), l);
  }

  /** In free: only headers that were in use when the call began. */
  lemma FreeStageWrites(b: World, w: World, c: Call, st: Stage)
    requires Inv(b) && c.DoFree? && IsLive(b, c.ptr - HEADER) && Midway(b, w, c, st) && !st.Leave?
    ensures WritesIn(w, Work(w, c, st).0, b.owner.Keys)
  {
    var t := c.ptr - HEADER;
    if LeftIsFree(b, t) {
      MeltStageWrites(b, t);
    }
    LastStagesWrite(b, t);
  }

  /** A header a stage changes meets no payload that was live when the call began. */
  lemma StageSparesPayloads(b: World, w: World, c: Call, st: Stage, a: int, p: int)
    requires Inv(b) && Legal(b, c) && (c.DoFree? ==> IsLive(b, c.ptr - HEADER))
    requires Midway(b, w, c, st) && !st.Leave? && p in Live(b)
    requires var v := Work(w, c, st).0; a in v.tags && !(a in w.tags && w.tags[a] == v.tags[a])
    ensures Apart(p + HEADER, Live(b)[p], a, HEADER)
  {
    if c.DoFree? {
      FreeStageWrites(b, w, c, st);
      PayloadIsPrivate(b, p, a);
    } else {
      MallocStageWrites(b, w, c, st);
      MallocServes(b, c.size);
      SameBlockAfter(b, c.size, Malloc(b, c.size).0, Malloc(b, c.size).1, p);
      PayloadIsPrivate(Malloc(b, c.size).0, p, a);
    }
  }

  lemma SameBlockAfter(b: World, size: int, v: World, ptr: int, p: int)
    requires Inv(b) && Serves(b, size, v, ptr) && p in Live(b)
    ensures Inv(v) && p in Live(v) && Live(v)[p] == Live(b)[p]
  {
    assert ptr != NULL ==> ptr - HEADER !in Live(b);
  }

  // ----- every interleaving -----

  ghost predicate AllMidway(s: System) {
    forall t | 0 <= t < |s.threads| && s.threads[t].Inside? ::
      Midway(s.base, s.w, s.threads[t].c, s.threads[t].stage)
  }

  lemma WorkOnKeepsMidway(s: System, t: nat)
    requires Exclusive(s) && AllMidway(s) && Enabled(s, WorkOn(t)) && s.base.src.cur != NULL
    ensures AllMidway(Act(s, WorkOn(t)))
  {
    WorkIsMidway(s.base, s.w, s.threads[t].c, s.threads[t].stage);
  }

  lemma OthersKeepMidway(s: System, a: Action)
    requires Exclusive(s) && AllMidway(s) && Enabled(s, a) && !a.WorkOn? && (s.lock == 0 ==> s.w == s.base)
    ensures AllMidway(Act(s, a))
  {
  }

  lemma ActKeepsMidway(s: System, init: World, a: Action)
    requires SysInv(s, init) && AllMidway(s) && Enabled(s, a)
    ensures AllMidway(Act(s, a))
  {
    if a.WorkOn? {
      QuietInv(s, init);
      WorkOnKeepsMidway(s, a.t);
    } else {
      OthersKeepMidway(s, a);
    }
  }

  lemma {:induction false} ScheduleKeepsMidway(s: System, init: World, actions: seq<Action>)
    requires SysInv(s, init) && AllMidway(s) && Schedule(s, actions)
    ensures AllMidway(After(s, actions))
    decreases actions
  {
    if actions != [] {
      ActKeepsMidway(s, init, actions[0]);
      ActKeeps(s, init, actions[0]);
      ScheduleKeepsMidway(Act(s, actions[0]), init, actions[1..]);
    }
  }

  /** Header `a` is new or has another value. */
  ghost predicate Changed(w: World, v: World, a: int) {
    a in v.tags && !(a in w.tags && w.tags[a] == v.tags[a])
  }

  /** No header changed from `w` to `v` meets one of the blocks. */
  ghost predicate Spares(w: World, v: World, live: map<int, int>) {
    forall a, p | Changed(w, v, a) && p in live :: Apart(p + HEADER, live[p], a, HEADER)
  }

  lemma StageSparesLive(b: World, w: World, c: Call, st: Stage)
    requires Inv(b) && Legal(b, c) && (c.DoFree? ==> IsLive(b, c.ptr - HEADER))
    requires Midway(b, w, c, st) && !st.Leave?
    ensures Spares(w, Work(w, c, st).0, Live(b))
  {
    forall a, p | Changed(w, Work(w, c, st).0, a) && p in Live(b)
      ensures Apart(p + HEADER, Live(b)[p], a, HEADER)
    {
      StageSparesPayloads(b, w, c, st, a, p);
    }
  }

  /** A header that `t` changes in its next stage meets no block that a thread has a claim on. */
  ghost predicate SparesClaims(s: System, t: nat)
    requires Enabled(s, WorkOn(t))
  {
    && Spares(s.w, Act(s, WorkOn(t)).w, Live(s.base))
    && (forall u: nat | u < |s.threads| :: Claims(s, u) <= Live(s.base).Keys)
  }

  /** What is known of the call under way, and of the claims beside it. */
  ghost predicate Poised(s: System, t: nat) {
    && |s.threads| == |s.owned| && t < |s.threads| && !s.threads[t].Idle?
    && Inv(s.base) && Legal(s.base, s.threads[t].c)
    && (s.threads[t].c.DoFree? ==> IsLive(s.base, s.threads[t].c.ptr - HEADER))
    && (forall u: nat | u < |s.threads| :: Claims(s, u) <= Live(s.base).Keys)
  }

  lemma CallUnderWay(s: System, init: World, t: nat)
    requires SysInv(s, init) && t < |s.threads| && !s.threads[t].Idle?
    ensures Poised(s, t)
  {
    QuietInv(s, init);
    CallIsLegal(s, init, t);
  }

  lemma StageSparesClaims(s: System, t: nat)
    requires Enabled(s, WorkOn(t))
    ensures Poised(s, t) && AllMidway(s) ==> SparesClaims(s, t)
  {
    if Poised(s, t) && AllMidway(s) {
      StageSparesLive(s.base, s.w, s.threads[t].c, s.threads[t].stage);
    }
  }

  /** In every interleaving, no header that the thread inside changes in any stage meets a block
      that any thread holds or is on its way to free. */
  lemma StagesSpareClaims(n: nat, init: World, actions: seq<Action>, t: nat)
    requires Inv(init) && init.src.end <= MAX_HEAP && Schedule(PowerUp(n, init), actions)
    requires Enabled(After(PowerUp(n, init), actions), WorkOn(t))
    ensures SparesClaims(After(PowerUp(n, init), actions), t)
  {
    PowerUpOk(n, init);
    ScheduleKeeps(PowerUp(n, init), init, actions);
    ScheduleKeepsMidway(PowerUp(n, init), init, actions);
    CallUnderWay(After(PowerUp(n, init), actions), init, t);
    StageSparesClaims(After(PowerUp(n, init), actions), t);
  }
}
