/** Any number of threads calling malloc and free behind the lock of spinlock.h. */
module Spinlock {
  import opened Machine
  import opened World
  import opened ChainLemmas
  import opened Overcommit
  import opened Theorems
  import opened Runs
  import opened CriticalSection

  const EBUSY := 1

  /** Where a thread is: outside; about to exchange; spinning on a read; in the critical section. */
  datatype Thread = Idle | Trying(c: Call) | Spinning(c: Call) | Inside(c: Call, stage: Stage)

  /** `owned` are the blocks each thread may free; `base`, `log` and `results` record the calls
      completed and what they returned. */
  datatype System = System(lock: int, w: World, threads: seq<Thread>, owned: seq<set<int>>,
                           base: World, log: seq<Call>, results: seq<int>)

  datatype Action =
    | Start(t: nat, c: Call)
    | Exchange(t: nat)
    | ReadSpin(t: nat)
    | WorkOn(t: nat)
    | Unlock(t: nat)
    | HandOver(t: nat, to: nat, block: int)

  /** What a thread may do next. It asks for no more than is safe in every state, since the state
      it will find is not known when it asks; and it frees only what it owns. */
  ghost predicate Enabled(s: System, a: Action) {
    && a.t < |s.threads| == |s.owned|
    && match a
       case Start(t, DoMalloc(size)) => s.threads[t].Idle? && 0 <= size <= MAX_REQUEST
       case Start(t, DoFree(ptr)) => s.threads[t].Idle? && ptr - HEADER in s.owned[t]
       case Exchange(t) => s.threads[t].Trying?
       case ReadSpin(t) => s.threads[t].Spinning?
       case WorkOn(t) => s.threads[t].Inside? && !s.threads[t].stage.Leave?
       case Unlock(t) => s.threads[t].Inside? && s.threads[t].stage.Leave?
       case HandOver(t, to, block) => to < |s.threads| && block in s.owned[t]
  }

  ghost function Act(s: System, a: Action): System
    requires Enabled(s, a)
  {
    match a
    case Start(t, c) =>
      s.(threads := s.threads[t := Trying(c)],
         owned := if c.DoFree? then s.owned[t := s.owned[t] - {c.ptr - HEADER}] else s.owned)
    case Exchange(t) =>
      // xchg: the old word comes back and the word is EBUSY either way
      s.(lock := EBUSY,
         threads := s.threads[t := if s.lock == 0 then Inside(s.threads[t].c, Enter) else Spinning(s.threads[t].c)])
    case ReadSpin(t) =>
      if s.lock == 0 then s.(threads := s.threads[t := Trying(s.threads[t].c)]) else s
    case WorkOn(t) =>
      var (v, next) := Work(s.w, s.threads[t].c, s.threads[t].stage);
      s.(w := v, threads := s.threads[t := Inside(s.threads[t].c, next)])
    case Unlock(t) =>
      var c, ptr := s.threads[t].c, s.threads[t].stage.ptr;
      s.(lock := 0, threads := s.threads[t := Idle],
         owned := if c.DoMalloc? && ptr != NULL then s.owned[t := s.owned[t] + {ptr - HEADER}] else s.owned,
         base := s.w, log := s.log + [c], results := s.results + [ptr])
    case HandOver(t, to, block) =>
      var given := s.owned[t := s.owned[t] - {block}];
      s.(owned := given[to := given[to] + {block}])
  }

  /** The block a thread is on its way to free. */
  ghost function InFlight(th: Thread): set<int> {
    if !th.Idle? && th.c.DoFree? then {th.c.ptr - HEADER} else {}
  }

  ghost function Claims(s: System, t: nat): set<int>
    requires t < |s.threads| == |s.owned|
  {
    s.owned[t] + InFlight(s.threads[t])
  }

  /** All blocks that some thread holds or is on its way to free. */
  ghost function Claimed(s: System): set<int>
    requires |s.threads| == |s.owned|
  {
    set t, a | 0 <= t < |s.threads| && a in Claims(s, t) :: a
  }

  /** The blocks live between calls that no thread claims. */
  ghost function Unclaimed(s: System): set<int>
    requires |s.threads| == |s.owned|
  {
    Live(s.base).Keys - Claimed(s)
  }

  // ----- the invariant -----

  /** The lock word is set exactly while one thread, and no other, is inside. */
  ghost predicate Exclusive(s: System) {
    && (s.lock == 0 || s.lock == EBUSY)
    && (forall t, u | 0 <= t < |s.threads| && 0 <= u < |s.threads|
          && s.threads[t].Inside? && s.threads[u].Inside? :: t == u)
    && (s.lock == EBUSY <==> exists t :: 0 <= t < |s.threads| && s.threads[t].Inside?)
  }

  /** Every claim is a block that is live between calls, and no block is claimed twice. */
  ghost predicate Owned(s: System) {
    && |s.owned| == |s.threads|
    && (forall t | 0 <= t < |s.threads| :: Claims(s, t) <= Live(s.base).Keys)
    && (forall t, u | 0 <= t < u < |s.threads| :: Claims(s, t) !! Claims(s, u))
    && (forall t | 0 <= t < |s.threads| :: s.owned[t] !! InFlight(s.threads[t]))
  }

  /** A call under way is one its thread was allowed to start. */
  ghost predicate Started(th: Thread) {
    !th.Idle? && th.c.DoMalloc? ==> 0 <= th.c.size <= MAX_REQUEST
  }

  /** The holder's remaining stages lead where its whole call leads from the last quiet state. */
  ghost predicate OnTrack(s: System) {
    && (s.lock == 0 ==> s.w == s.base)
    && (forall t | 0 <= t < |s.threads| && s.threads[t].Inside? ::
          Finish(s.w, s.threads[t].c, s.threads[t].stage)
            == (Step(s.base, s.threads[t].c), Result(s.base, s.threads[t].c)))
  }

  /** The last quiet state is the outcome of the completed calls, one after the other. */
  ghost predicate Sequential(s: System, init: World) {
    && Inv(init) && s.base.src.end <= MAX_HEAP
    && LegalRun(init, s.log) && s.base == Run(init, s.log) && s.results == Results(init, s.log)
  }

  ghost predicate SysInv(s: System, init: World) {
    && Exclusive(s) && Owned(s) && OnTrack(s) && Sequential(s, init)
    && (forall t | 0 <= t < |s.threads| :: Started(s.threads[t]))
  }

  // ----- each action keeps it -----

  lemma {:induction false} RunAppend(w: World, calls: seq<Call>, c: Call)
    requires LegalRun(w, calls) && Legal(Run(w, calls), c)
    ensures LegalRun(w, calls + [c]) && Run(w, calls + [c]) == Step(Run(w, calls), c)
    decreases calls
  {
    if calls == [] {
      assert (calls + [c])[1..] == [];
    } else {
      RunAppend(Step(w, calls[0]), calls[1..], c);
      assert (calls + [c])[1..] == calls[1..] + [c];
    }
  }

  lemma {:induction false} ResultsAppend(w: World, calls: seq<Call>, c: Call)
    ensures Results(w, calls + [c]) == Results(w, calls) + [Result(Run(w, calls), c)]
    decreases calls
  {
    var all := calls + [c];
    if calls == [] {
      assert all[1..] == [];
    } else {
      assert all[1..] == calls[1..] + [c];
      ResultsAppend(Step(w, calls[0]), calls[1..], c);
    }
  }

  /** Whoever takes the lock may make the call it came for. */
  lemma CallIsLegal(s: System, init: World, t: nat)
    requires t < |s.threads| == |s.owned| && !s.threads[t].Idle? && Started(s.threads[t])
    requires Claims(s, t) <= Live(s.base).Keys && Inv(s.base) && s.base.src.end <= MAX_HEAP
    ensures Legal(s.base, s.threads[t].c)
    ensures s.threads[t].c.DoFree? ==> s.threads[t].c.ptr != NULL && IsLive(s.base, s.threads[t].c.ptr - HEADER)
  {
    match s.threads[t].c
    case DoMalloc(size) => SmallIsSafe(s.base.src, size);
    case DoFree(ptr) =>
      assert ptr - HEADER in Claims(s, t);
      assert IsLive(s.base, ptr - HEADER);
      BelowCursor(s.base, ptr - HEADER);
  }

  lemma QuietInv(s: System, init: World)
    requires Sequential(s, init)
    ensures Inv(s.base)
  {
    RunRefines(init, s.log);
  }

  /** A thread that has just entered is on track. */
  lemma EntersOnTrack(s: System, init: World, t: nat)
    requires SysInv(s, init) && t < |s.threads| && s.threads[t].Trying? && s.lock == 0
    ensures Finish(s.w, s.threads[t].c, Enter) == (Step(s.base, s.threads[t].c), Result(s.base, s.threads[t].c))
  {
    QuietInv(s, init);
    CallIsLegal(s, init, t);
    match s.threads[t].c
    case DoMalloc(_) => FinishMalloc(s.w, s.threads[t].c);
    case DoFree(_) => FinishFree(s.w, s.threads[t].c);
  }

  /** The claims of every thread are as before. */
  lemma SameClaims(s: System, v: System)
    requires Owned(s) && v.base == s.base && v.owned == s.owned && |v.threads| == |s.threads|
    requires forall t | 0 <= t < |s.threads| :: InFlight(v.threads[t]) == InFlight(s.threads[t])
    ensures Owned(v) && Claimed(v) == Claimed(s)
  {
    assert forall t | 0 <= t < |s.threads| :: Claims(v, t) == Claims(s, t);
  }

  lemma StartOwned(s: System, t: nat, c: Call)
    requires Owned(s) && Enabled(s, Start(t, c))
    ensures Owned(Act(s, Start(t, c))) && Claimed(Act(s, Start(t, c))) == Claimed(s)
  {
    assert forall u | 0 <= u < |s.threads| :: Claims(Act(s, Start(t, c)), u) == Claims(s, u);
  }

  lemma StartKeeps(s: System, init: World, t: nat, c: Call)
    requires SysInv(s, init) && Enabled(s, Start(t, c))
    ensures SysInv(Act(s, Start(t, c)), init)
  {
    var v := Act(s, Start(t, c));
    StartOwned(s, t, c);
    assert forall u | 0 <= u < |s.threads| :: v.threads[u].Inside? <==> s.threads[u].Inside?;
  }

  lemma ExchangeKeeps(s: System, init: World, t: nat)
    requires SysInv(s, init) && Enabled(s, Exchange(t))
    ensures SysInv(Act(s, Exchange(t)), init)
  {
    var v := Act(s, Exchange(t));
    SameClaims(s, v);
    if s.lock == 0 {
      EntersOnTrack(s, init, t);
      assert v.threads[t].Inside?;
    } else {
      assert forall u | 0 <= u < |s.threads| :: v.threads[u].Inside? <==> s.threads[u].Inside?;
    }
  }

  lemma ReadSpinKeeps(s: System, init: World, t: nat)
    requires SysInv(s, init) && Enabled(s, ReadSpin(t))
    ensures SysInv(Act(s, ReadSpin(t)), init)
  {
    var v := Act(s, ReadSpin(t));
    SameClaims(s, v);
    assert forall u | 0 <= u < |s.threads| :: v.threads[u].Inside? <==> s.threads[u].Inside?;
  }

  lemma WorkOnKeeps(s: System, init: World, t: nat)
    requires SysInv(s, init) && Enabled(s, WorkOn(t))
    ensures SysInv(Act(s, WorkOn(t)), init)
  {
    var v := Act(s, WorkOn(t));
    SameClaims(s, v);
    assert forall u | 0 <= u < |s.threads| :: v.threads[u].Inside? <==> s.threads[u].Inside?;
    assert Finish(v.w, v.threads[t].c, v.threads[t].stage) == Finish(s.w, s.threads[t].c, s.threads[t].stage);
  }

  lemma HandOverKeeps(s: System, init: World, t: nat, to: nat, block: int)
    requires SysInv(s, init) && Enabled(s, HandOver(t, to, block))
    ensures SysInv(Act(s, HandOver(t, to, block)), init)
  {
    var v := Act(s, HandOver(t, to, block));
    HandOverClaims(s, v, t, to, block);
  }

  lemma HandOverClaims(s: System, v: System, t: nat, to: nat, block: int)
    requires Owned(s) && Enabled(s, HandOver(t, to, block)) && v == Act(s, HandOver(t, to, block))
    ensures Owned(v)
    ensures forall u | 0 <= u < |s.threads| ::
              Claims(v, u) == if u == to then Claims(s, u) + {block}
                              else if u == t then Claims(s, u) - {block} else Claims(s, u)
  {
    forall u | 0 <= u < |s.threads|
      ensures Claims(v, u) == if u == to then Claims(s, u) + {block}
                              else if u == t then Claims(s, u) - {block} else Claims(s, u)
      ensures Claims(v, u) <= Live(v.base).Keys && v.owned[u] !! InFlight(v.threads[u])
      ensures u != t ==> block !in Claims(s, u)
    {
      assert block in Claims(s, t) && Claims(s, t) <= Live(s.base).Keys;
      assert u < t ==> Claims(s, u) !! Claims(s, t);
      assert t < u ==> Claims(s, t) !! Claims(s, u);
      assert s.owned[u] !! InFlight(s.threads[u]);
    }
    forall u, x | 0 <= u < x < |s.threads|
      ensures Claims(v, u) !! Claims(v, x)
    {
      assert Claims(s, u) !! Claims(s, x);
    }
  }

  /** When the holder leaves, its call is complete. */
  lemma LeavesComplete(s: System, init: World, t: nat)
    requires SysInv(s, init) && Enabled(s, Unlock(t))
    ensures Legal(s.base, s.threads[t].c) && Inv(s.base)
    ensures s.w == Step(s.base, s.threads[t].c) && s.threads[t].stage.ptr == Result(s.base, s.threads[t].c)
  {
    QuietInv(s, init);
    CallIsLegal(s, init, t);
  }

  lemma UnlockAfterMalloc(s: System, v: System, t: nat, block: int)
    requires Owned(s) && t < |s.threads| && block !in Live(s.base)
    requires v.threads == s.threads[t := Idle] && s.threads[t].Inside? && s.threads[t].c.DoMalloc?
    requires v.owned == s.owned[t := s.owned[t] + {block}]
    requires Live(v.base).Keys == Live(s.base).Keys + {block}
    ensures Owned(v) && Claimed(v) == Claimed(s) + {block}
  {
    forall u | 0 <= u < |s.threads|
      ensures Claims(v, u) == Claims(s, u) + (if u == t then {block} else {})
      ensures block !in Claims(s, u) && Claims(v, u) <= Live(v.base).Keys
      ensures v.owned[u] !! InFlight(v.threads[u])
    {
      assert Claims(s, u) <= Live(s.base).Keys;
    }
    assert block in Claims(v, t);
    forall u, x | 0 <= u < x < |s.threads|
      ensures Claims(v, u) !! Claims(v, x)
    {
      assert Claims(s, u) !! Claims(s, x);
    }
  }

  lemma UnlockAfterFree(s: System, v: System, t: nat)
    requires Owned(s) && t < |s.threads|
    requires v.threads == s.threads[t := Idle] && s.threads[t].Inside? && s.threads[t].c.DoFree?
    requires v.owned == s.owned && Live(v.base) == Live(s.base) - {s.threads[t].c.ptr - HEADER}
    ensures Owned(v) && Claimed(v) == Claimed(s) - {s.threads[t].c.ptr - HEADER}
    ensures s.threads[t].c.ptr - HEADER in Claimed(s)
  {
    var block := s.threads[t].c.ptr - HEADER;
    assert block in Claims(s, t) && Claims(v, t) == Claims(s, t) - {block};
    assert forall u | 0 <= u < |s.threads| && u != t :: Claims(v, u) == Claims(s, u) && block !in Claims(s, u);
  }

  lemma UnlockOwned(s: System, init: World, t: nat)
    requires SysInv(s, init) && Enabled(s, Unlock(t))
    ensures Owned(Act(s, Unlock(t))) && Unclaimed(Act(s, Unlock(t))) == Unclaimed(s)
  {
    var c, ptr := s.threads[t].c, s.threads[t].stage.ptr;
    LeavesComplete(s, init, t);
    StepRefines(s.base, c);
    var live := AbstractStep(Live(s.base), c, ptr);
    UnlockClaims(s, Act(s, Unlock(t)), t, live);
  }

  lemma UnlockClaims(s: System, v: System, t: nat, live: map<int, int>)
    requires Owned(s) && Enabled(s, Unlock(t)) && v == Act(s, Unlock(t)) && Live(v.base) == live
    requires live == AbstractStep(Live(s.base), s.threads[t].c, s.threads[t].stage.ptr)
    requires AbstractLegal(Live(s.base), s.threads[t].c, s.threads[t].stage.ptr)
    ensures Owned(v)
    ensures Unclaimed(v) == Unclaimed(s)
  {
    var c, ptr := s.threads[t].c, s.threads[t].stage.ptr;
    if c.DoFree? {
      UnlockAfterFree(s, v, t);
    } else if ptr != NULL {
      UnlockAfterMalloc(s, v, t, ptr - HEADER);
    } else {
      SameButIdle(s, v, t);
    }
  }

  lemma SameButIdle(s: System, v: System, t: nat)
    requires Owned(s) && t < |s.threads| && s.threads[t].Inside? && s.threads[t].c.DoMalloc?
    requires v.threads == s.threads[t := Idle] && v.owned == s.owned && Live(v.base) == Live(s.base)
    ensures Owned(v) && Claimed(v) == Claimed(s)
  {
    assert forall u | 0 <= u < |s.threads| :: Claims(v, u) == Claims(s, u);
  }

  lemma UnlockKeeps(s: System, init: World, t: nat)
    requires SysInv(s, init) && Enabled(s, Unlock(t))
    ensures SysInv(Act(s, Unlock(t)), init)
  {
    var v, c := Act(s, Unlock(t)), s.threads[t].c;
    UnlockOwned(s, init, t);
    LeavesComplete(s, init, t);
    RunAppend(init, s.log, c);
    ResultsAppend(init, s.log, c);
    StepEnds(s.base, c);
    assert forall u | 0 <= u < |s.threads| :: !v.threads[u].Inside?;
  }

  /** Every action of every thread keeps the invariant. */
  lemma ActKeeps(s: System, init: World, a: Action)
    requires SysInv(s, init) && Enabled(s, a)
    ensures SysInv(Act(s, a), init)
  {
    match a
    case Start(t, c) => StartKeeps(s, init, t, c);
    case Exchange(t) => ExchangeKeeps(s, init, t);
    case ReadSpin(t) => ReadSpinKeeps(s, init, t);
    case WorkOn(t) => WorkOnKeeps(s, init, t);
    case Unlock(t) => UnlockKeeps(s, init, t);
    case HandOver(t, to, block) => HandOverKeeps(s, init, t, to, block);
  }

  // ----- every interleaving -----

  ghost predicate Schedule(s: System, actions: seq<Action>)
    decreases actions
  {
    actions == [] || (Enabled(s, actions[0]) && Schedule(Act(s, actions[0]), actions[1..]))
  }

  ghost function After(s: System, actions: seq<Action>): System
    requires Schedule(s, actions)
    decreases actions
  {
    if actions == [] then s else After(Act(s, actions[0]), actions[1..])
  }

  ghost function PowerUp(n: nat, init: World): System {
    System(0, init, seq(n, _ => Idle), seq(n, _ => {}), init, [], [])
  }

  lemma {:induction false} ScheduleKeeps(s: System, init: World, actions: seq<Action>)
    requires SysInv(s, init) && Schedule(s, actions)
    ensures SysInv(After(s, actions), init)
    decreases actions
  {
    if actions != [] {
      ActKeeps(s, init, actions[0]);
      ScheduleKeeps(Act(s, actions[0]), init, actions[1..]);
    }
  }

  lemma PowerUpOk(n: nat, init: World)
    requires Inv(init) && init.src.end <= MAX_HEAP
    ensures SysInv(PowerUp(n, init), init)
  {
    var s := PowerUp(n, init);
    assert forall t | 0 <= t < n :: Claims(s, t) == {};
  }

  /** Mutual exclusion in every interleaving, and with it the allocator: the word is nonzero
      exactly while one thread is inside; the calls completed have returned what they return when
      made one after the other; and whenever the word is 0 the state is that of those calls, in
      which the full invariant holds. */
  lemma EveryInterleaving(n: nat, init: World, actions: seq<Action>)
    requires Inv(init) && init.src.end <= MAX_HEAP && Schedule(PowerUp(n, init), actions)
    ensures var s := After(PowerUp(n, init), actions);
      && Exclusive(s)
      && LegalRun(init, s.log) && s.results == Results(init, s.log)
      && (s.lock == 0 ==> Inv(s.w) && s.w == Run(init, s.log))
  {
    PowerUpOk(n, init);
    ScheduleKeeps(PowerUp(n, init), init, actions);
    QuietInv(After(PowerUp(n, init), actions), init);
  }

  /** Whatever is going on inside the critical section, blocks that threads hold or are on their
      way to free are live and never overlap. */
  lemma BlocksOfThreadsApart(n: nat, init: World, actions: seq<Action>, t: nat, u: nat, a: int, b: int)
    requires Inv(init) && init.src.end <= MAX_HEAP && Schedule(PowerUp(n, init), actions)
    requires var s := After(PowerUp(n, init), actions);
      && t < |s.threads| == |s.owned| && u < |s.threads| && (t != u || a != b)
      && a in Claims(s, t) && b in Claims(s, u)
    ensures var s := After(PowerUp(n, init), actions);
      && a in Live(s.base) && b in Live(s.base) && a != b
      && Apart(a + HEADER, Live(s.base)[a], b + HEADER, Live(s.base)[b])
      && (s.lock == 0 ==> s.w == s.base)
  {
    var s := After(PowerUp(n, init), actions);
    PowerUpOk(n, init);
    ScheduleKeeps(PowerUp(n, init), init, actions);
    QuietInv(s, init);
    assert Claims(s, t) <= Live(s.base).Keys && Claims(s, u) <= Live(s.base).Keys;
    PayloadIsPrivate(s.base, a, b);
  }

  // ----- no block is lost -----

  /** An action by which nobody gains, loses or starts to free a block. */
  lemma TurnAccounts(s: System, a: Action)
    requires Owned(s) && Enabled(s, a) && (a.Exchange? || a.ReadSpin? || a.WorkOn?)
    ensures Act(s, a).owned == s.owned && |Act(s, a).threads| == |s.threads|
    ensures Unclaimed(Act(s, a)) == Unclaimed(s)
  {
    SameClaims(s, Act(s, a));
  }

  lemma HandOverClaimed(s: System, t: nat, to: nat, block: int)
    requires Owned(s) && Enabled(s, HandOver(t, to, block))
    ensures Unclaimed(Act(s, HandOver(t, to, block))) == Unclaimed(s)
  {
    var v := Act(s, HandOver(t, to, block));
    HandOverClaims(s, v, t, to, block);
    assert block in Claims(s, t) && block in Claims(v, to);
    forall a | a in Claimed(s)
      ensures a in Claimed(v)
    {
      var u :| 0 <= u < |s.threads| && a in Claims(s, u);
      assert a in Claims(v, u) || a == block;
    }
    assert Claimed(v) == Claimed(s);
  }

  /** No action of any thread loses a block, or makes one up. */
  lemma ActAccounts(s: System, init: World, a: Action)
    requires SysInv(s, init) && Enabled(s, a)
    ensures |Act(s, a).threads| == |Act(s, a).owned| == |s.threads|
    ensures Unclaimed(Act(s, a)) == Unclaimed(s)
  {
    match a
    case Start(t, c) => StartOwned(s, t, c);
    case HandOver(t, to, block) => HandOverClaimed(s, t, to, block);
    case Unlock(t) => UnlockOwned(s, init, t);
    case _ => TurnAccounts(s, a);
  }

  lemma {:induction false} ScheduleAccounts(s: System, init: World, actions: seq<Action>)
    requires SysInv(s, init) && Schedule(s, actions)
    ensures var v := After(s, actions);
      && SysInv(v, init) && |v.threads| == |v.owned| == |s.threads| && Unclaimed(v) == Unclaimed(s)
    decreases actions
  {
    if actions != [] {
      ActKeeps(s, init, actions[0]);
      ActAccounts(s, init, actions[0]);
      ScheduleAccounts(Act(s, actions[0]), init, actions[1..]);
    }
  }

  /** After every interleaving each block that is live between calls was live at the start and is
      still nobody's, or just one thread holds it or is on its way to free it. */
  lemma NoBlockIsLost(n: nat, init: World, actions: seq<Action>, a: int)
    requires Inv(init) && init.src.end <= MAX_HEAP && Schedule(PowerUp(n, init), actions)
    ensures var s := After(PowerUp(n, init), actions);
      && |s.threads| == |s.owned| == n
      && (a in Live(init) <==> a in Live(s.base) && forall t | 0 <= t < n :: a !in Claims(s, t))
      && (forall t, u | 0 <= t < u < n :: a !in Claims(s, t) || a !in Claims(s, u))
  {
    PowerUpOk(n, init);
    assert Claimed(PowerUp(n, init)) == {};
    ScheduleAccounts(PowerUp(n, init), init, actions);
    var s := After(PowerUp(n, init), actions);
    assert a in Unclaimed(s) <==> a in Live(init);
    assert forall t, u | 0 <= t < u < n :: Claims(s, t) !! Claims(s, u);
  }
}
