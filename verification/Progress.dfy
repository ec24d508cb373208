/** What the lock lets threads do: a waiting thread waits while the word is set, the thread inside
    needs no other to leave, and whoever finds the word 0 completes its call. */
module Progress {
  import opened World
  import opened Overcommit
  import opened Runs
  import opened CriticalSection
  import opened Spinlock

  /** Thread `t` works through k more stages and unlocks. */
  function Alone(t: nat, k: nat): seq<Action> {
    if k == 0 then [Unlock(t)] else [WorkOn(t)] + Alone(t, k - 1)
  }

  /** `v` is `s`, but that the call of thread `t` has been made on the last quiet state: the call
      and its result are recorded, the caller owns the block if there is one, and the word is 0. */
  ghost predicate Completes(s: System, v: System, t: nat) {
    && t < |s.threads| == |s.owned| && !s.threads[t].Idle?
    && var c := s.threads[t].c;
      var ptr := Result(s.base, c);
      v == System(0, Step(s.base, c), s.threads[t := Idle],
                  if c.DoMalloc? && ptr != 0 then s.owned[t := s.owned[t] + {ptr - 32}] else s.owned,
                  Step(s.base, c), s.log + [c], s.results + [ptr])
  }

  /** Those actions can be taken, and complete the call of thread `t`. */
  ghost predicate Leads(s: System, t: nat, actions: seq<Action>) {
    Schedule(s, actions) && Completes(s, After(s, actions), t)
  }

  lemma UnlockCompletes(s: System, init: World, t: nat)
    requires SysInv(s, init) && Enabled(s, Unlock(t))
    ensures Leads(s, t, Alone(t, 0))
  {
    assert Alone(t, 0)[1..] == [];
    assert Schedule(Act(s, Unlock(t)), []);
  }

  /** An action that leaves what `t` is to complete as it was. */
  ghost predicate Approaches(s: System, v: System, t: nat) {
    && t < |s.threads| == |s.owned| && !s.threads[t].Idle? && |v.threads| == |s.threads|
    && !v.threads[t].Idle? && v.threads[t].c == s.threads[t].c && v.threads == s.threads[t := v.threads[t]]
    && v.owned == s.owned && v.base == s.base && v.log == s.log && v.results == s.results
  }

  lemma OneMore(s: System, v: System, t: nat, a: Action, actions: seq<Action>)
    requires Enabled(s, a) && v == Act(s, a) && Approaches(s, v, t) && Leads(v, t, actions)
    ensures Leads(s, t, [a] + actions)
  {
    assert ([a] + actions)[1..] == actions;
    assert v.threads[t := Idle] == s.threads[t := Idle];
  }

  /** The thread inside needs no other: its own next actions complete its call and bring the word
      back to 0. */
  lemma {:induction false} HolderLeaves(s: System, init: World, t: nat) returns (k: nat)
    requires SysInv(s, init) && t < |s.threads| == |s.owned| && s.threads[t].Inside?
    ensures k <= Rank(s.threads[t].stage) && Leads(s, t, Alone(t, k))
    decreases Rank(s.threads[t].stage)
  {
    if s.threads[t].stage.Leave? {
      k := 0;
      UnlockCompletes(s, init, t);
    } else {
      var v := Act(s, WorkOn(t));
      WorkOnKeeps(s, init, t);
      var j := HolderLeaves(v, init, t);
      OneMore(s, v, t, WorkOn(t), Alone(t, j));
      k := j + 1;
    }
  }

  /** A state some schedule leads to. */
  lemma Reached(n: nat, init: World, actions: seq<Action>)
    requires Inv(init) && init.src.end <= MAX_HEAP && Schedule(PowerUp(n, init), actions)
    ensures SysInv(After(PowerUp(n, init), actions), init)
  {
    PowerUpOk(n, init);
    ScheduleKeeps(PowerUp(n, init), init, actions);
  }

  lemma SomeoneLeaves(s: System, init: World) returns (t: nat, k: nat)
    requires SysInv(s, init) && s.lock != 0
    ensures k <= 5 && Leads(s, t, Alone(t, k))
  {
    t :| t < |s.threads| && s.threads[t].Inside?;
    k := HolderLeaves(s, init, t);
  }

  /** From every reachable state in which the word is set, at most five stages and one unlock of
      the thread inside complete its call and free the lock. */
  lemma LockComesFree(n: nat, init: World, actions: seq<Action>) returns (t: nat, k: nat)
    requires Inv(init) && init.src.end <= MAX_HEAP && Schedule(PowerUp(n, init), actions)
    requires After(PowerUp(n, init), actions).lock != 0
    ensures k <= 5 && Leads(After(PowerUp(n, init), actions), t, Alone(t, k))
  {
    Reached(n, init, actions);
    t, k := SomeoneLeaves(After(PowerUp(n, init), actions), init);
  }

  /** How thread `t` comes in when the word is 0: a spinning thread reads it first. */
  function Entering(th: Thread, t: nat): seq<Action> {
    (if th.Spinning? then [ReadSpin(t)] else []) + [Exchange(t)]
  }

  lemma TryingEnters(s: System, init: World, t: nat) returns (k: nat)
    requires SysInv(s, init) && t < |s.threads| && s.threads[t].Trying? && s.lock == 0
    ensures k <= 5 && Leads(s, t, [Exchange(t)] + Alone(t, k))
  {
    var v := Act(s, Exchange(t));
    ExchangeKeeps(s, init, t);
    k := HolderLeaves(v, init, t);
    OneMore(s, v, t, Exchange(t), Alone(t, k));
  }

  /** From every reachable state in which the word is 0, a thread that waits for the lock needs no
      other thread to complete its call, with the result the call has in that state. */
  lemma WaiterCompletes(n: nat, init: World, actions: seq<Action>, t: nat) returns (k: nat)
    requires Inv(init) && init.src.end <= MAX_HEAP && Schedule(PowerUp(n, init), actions)
    requires var s := After(PowerUp(n, init), actions);
      s.lock == 0 && t < |s.threads| && (s.threads[t].Trying? || s.threads[t].Spinning?)
    ensures var s := After(PowerUp(n, init), actions);
      k <= 5 && Leads(s, t, Entering(s.threads[t], t) + Alone(t, k))
  {
    var s := After(PowerUp(n, init), actions);
    Reached(n, init, actions);
    if s.threads[t].Trying? {
      k := TryingEnters(s, init, t);
      assert [] + [Exchange(t)] == [Exchange(t)];
    } else {
      var v := Act(s, ReadSpin(t));
      ReadSpinKeeps(s, init, t);
      k := TryingEnters(v, init, t);
      OneMore(s, v, t, ReadSpin(t), [Exchange(t)] + Alone(t, k));
      assert [ReadSpin(t)] + [Exchange(t)] + Alone(t, k) == [ReadSpin(t)] + ([Exchange(t)] + Alone(t, k));
    }
  }

  /** Thread `t` asks for a call and, with no other thread acting, has it made. */
  function OneCall(t: nat, c: Call, k: nat): seq<Action> {
    [Start(t, c)] + ([Exchange(t)] + Alone(t, k))
  }

  /** `v` is `s`, but that thread `t` has made the call: the block is its own then, or no longer. */
  ghost predicate Made(s: System, v: System, t: nat, c: Call)
    requires t < |s.owned|
  {
    var ptr := Result(s.base, c);
    var own := if c.DoFree? then s.owned[t] - {c.ptr - 32}
               else if ptr != 0 then s.owned[t] + {ptr - 32} else s.owned[t];
    v == System(0, Step(s.base, c), s.threads, s.owned[t := own], Step(s.base, c), s.log + [c], s.results + [ptr])
  }

  lemma IdleCompletes(s: System, init: World, t: nat, c: Call) returns (k: nat)
    requires SysInv(s, init) && s.lock == 0 && Enabled(s, Start(t, c))
    ensures k <= 5 && Schedule(s, OneCall(t, c, k)) && Made(s, After(s, OneCall(t, c, k)), t, c)
  {
    StartKeeps(s, init, t, c);
    k := TryingEnters(Act(s, Start(t, c)), init, t);
    assert OneCall(t, c, k)[1..] == [Exchange(t)] + Alone(t, k);
  }

  /** From every reachable state in which the word is 0, an idle thread can have any call it may ask
      for made, without another thread. */
  lemma CallCompletes(n: nat, init: World, actions: seq<Action>, t: nat, c: Call) returns (k: nat)
    requires Inv(init) && init.src.end <= MAX_HEAP && Schedule(PowerUp(n, init), actions)
    requires var s := After(PowerUp(n, init), actions); s.lock == 0 && Enabled(s, Start(t, c))
    ensures var s := After(PowerUp(n, init), actions);
      k <= 5 && Schedule(s, OneCall(t, c, k)) && Made(s, After(s, OneCall(t, c, k)), t, c)
  {
    Reached(n, init, actions);
    k := IdleCompletes(After(PowerUp(n, init), actions), init, t, c);
  }

  /** The word is not 0 before any of the actions. */
  ghost predicate HeldThroughout(s: System, actions: seq<Action>)
    requires Schedule(s, actions)
    decreases actions
  {
    actions == [] || (s.lock != 0 && HeldThroughout(Act(s, actions[0]), actions[1..]))
  }

  /** While the word is set a waiting thread goes on waiting for the same call: it spins from its
      first exchange on. */
  lemma {:induction false} WaitsWhileHeld(s: System, actions: seq<Action>, t: nat)
    requires Schedule(s, actions) && HeldThroughout(s, actions)
    requires t < |s.threads| && (s.threads[t].Trying? || s.threads[t].Spinning?)
    ensures t < |After(s, actions).threads| && After(s, actions).threads[t] ==
      if Exchange(t) in actions then Spinning(s.threads[t].c) else s.threads[t]
    decreases actions
  {
    if actions != [] {
      WaitsWhileHeld(Act(s, actions[0]), actions[1..], t);
    }
  }
}
