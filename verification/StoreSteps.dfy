/** Every step of every thread keeps the invariant of the timer store. */
module StoreSteps {
  import opened StoreModel
  import opened StoreInvariant

  /** Only thread `tid` moved. */
  ghost predicate OthersKept(s: Store, s': Store, tid: Tid) {
    && tid in s.threads && s'.threads.Keys == s.threads.Keys
    && forall u :: u in s.threads && u != tid ==> s'.threads[u] == s.threads[u]
  }

  /** The reference structure around `t` as far as thread `tid` goes. */
  ghost predicate SameUse(th: Thread, th': Thread, t: Ptr) {
    && (FlightOf(th'.pc) == t <==> FlightOf(th.pc) == t)
    && (forall x :: x in th'.refs && th'.refs[x] == t <==> x in th.refs && th.refs[x] == t)
  }

  /** A timer whose object, membership and uses stay the same keeps its count. */
  lemma CountFrame(s: Store, s': Store, tid: Tid, t: Ptr)
    requires |s.chains| > 0 && |s'.chains| > 0 && OthersKept(s, s', tid)
    requires t in s.objs && t in s'.objs && s'.objs[t] == s.objs[t] && CountOk(s, t)
    requires InMap(s', t) == InMap(s, t) && InWheel(s', t) == InWheel(s, t)
    requires SameUse(s.threads[tid], s'.threads[tid], t)
    ensures CountOk(s', t)
  {
    forall h
      ensures IsHolder(s', t, h) <==> IsHolder(s, t, h)
    {}
  }

  /** A timer that changes hands: exactly the holder `h` appears or disappears. */
  lemma HoldersChange(s: Store, s': Store, tid: Tid, t: Ptr, drop: set<Holder>, take: set<Holder>)
    requires |s.chains| > 0 && |s'.chains| > 0 && OthersKept(s, s', tid)
    requires t in s.objs && t in s'.objs && CountOk(s, t)
    requires s'.objs[t].holders == s.objs[t].holders - drop + take
    requires InMap(s', t) <==> (InMap(s, t) && Map !in drop) || Map in take
    requires InWheel(s', t) <==> (InWheel(s, t) && Holder.Wheel !in drop) || Holder.Wheel in take
    requires FlightOf(s'.threads[tid].pc) == t <==>
             (FlightOf(s.threads[tid].pc) == t && Flight(tid) !in drop) || Flight(tid) in take
    requires forall x :: x in s'.threads[tid].refs && s'.threads[tid].refs[x] == t <==>
             (x in s.threads[tid].refs && s.threads[tid].refs[x] == t && Ref(tid, x) !in drop) || Ref(tid, x) in take
    requires forall u :: u != tid ==> Flight(u) !in drop + take
    requires forall u, x :: u != tid ==> Ref(u, x) !in drop + take
    ensures forall h :: h in s'.objs[t].holders <==> IsHolder(s', t, h)
  {
    hide InMap, InWheel, FlightOf;
    forall h
      ensures h in s'.objs[t].holders <==> IsHolder(s', t, h)
    {
      assert h in s.objs[t].holders <==> IsHolder(s, t, h);
    }
  }

  // ----- steps that move a program counter and nothing else -----

  lemma PcOnlyStep(s: Store, s': Store, tid: Tid)
    requires Inv(s) && OthersKept(s, s', tid)
    requires s'.objs == s.objs && s'.chains == s.chains && s'.wheels == s.wheels
    requires s'.threads[tid].refs == s.threads[tid].refs
    requires var pc, pc' := s.threads[tid].pc, s'.threads[tid].pc;
             FlightOf(pc') == FlightOf(pc) && ExclusiveOf(pc') == ExclusiveOf(pc) && AddingOf(pc') == AddingOf(pc)
    requires RemovingOf(s'.threads[tid]) >= 0 ==>
             forall u :: u in s.threads && u != tid ==> ExclusiveOf(s.threads[u].pc) != RemovingOf(s'.threads[tid])
    requires PcOk(s', tid) && LocksOk(s')
    ensures Inv(s')
  {
    hide PcOk, LocksOk, ChainsOk, WheelsOk, CountOk, WheelFieldOk;
    forall u | u in s'.threads
      ensures PcOk(s', u)
    {
      if u != tid { PcFrame(s, s', u); }
    }
    forall u | u in s'.threads
      ensures RoleOk(s', s'.threads[u])
    {
      assert RoleOk(s, s.threads[u]);
      RoleFrame(s, s', s.threads[u], s'.threads[u]);
    }
    forall t | t in s'.objs
      ensures CountOk(s', t) && WheelFieldOk(s', t)
    {
      CountFrame(s, s', tid, t);
      FieldFrame(s, s', tid, t);
    }
    PairsFrame(s, s', tid);
    SameChains(s, s');
    SameWheels(s, s');
  }

  lemma SameChains(s: Store, s': Store)
    requires |s.chains| > 0 && ChainsOk(s) && s'.chains == s.chains
    requires forall p :: p in s.objs <==> p in s'.objs
    requires forall p :: p in s.objs ==>
               s'.objs[p].id == s.objs[p].id && (s.objs[p].added ==> s'.objs[p].added)
               && (s.objs[p].life.Freed? ==> s'.objs[p].life.Freed?)
    ensures ChainsOk(s')
  {}

  lemma SameWheels(s: Store, s': Store)
    requires WheelsOk(s) && s'.wheels == s.wheels
    requires forall p :: p in s.objs <==> p in s'.objs
    requires forall p :: p in s.objs ==>
               s'.objs[p].wheel == s.objs[p].wheel && s'.objs[p].slot == s.objs[p].slot
               && (s.objs[p].added ==> s'.objs[p].added)
    ensures WheelsOk(s')
  {}

  /** What thread `u` relies on: ids, the chain it walks, the wheel fields it owns or is about to unlink. */
  lemma PcFrame(s: Store, s': Store, u: Tid)
    requires |s.chains| == |s'.chains| > 0
    requires u in s.threads && u in s'.threads && s'.threads[u] == s.threads[u] && PcOk(s, u)
    requires forall p :: p in s.objs ==>
               p in s'.objs && s'.objs[p].id == s.objs[p].id && (s.objs[p].added ==> s'.objs[p].added)
    requires var h := Inside(s, s.threads[u].pc);
             h >= 0 ==> s'.chains[h] == s.chains[h]
    requires s'.wheels.Keys == s.wheels.Keys
    requires var e := ExclusiveOf(s.threads[u].pc);
             e >= 0 && e in s.objs ==> s'.objs[e].wheel == s.objs[e].wheel
    requires var r := RemovingOf(s.threads[u]);
             r >= 0 && r in s.objs ==>
               s'.objs[r].wheel == NO_WHEEL
               || (s'.objs[r].wheel == s.objs[r].wheel && (InWheel(s, r) ==> InWheel(s', r)))
    ensures PcOk(s', u)
  {}

  lemma RoleFrame(s: Store, s': Store, th: Thread, th': Thread)
    requires |s.chains| > 0 && |s'.chains| > 0 && RoleOk(s, th)
    requires ExclusiveOf(th'.pc) == ExclusiveOf(th.pc) || ExclusiveOf(th'.pc) == -1
    requires AddingOf(th'.pc) == AddingOf(th.pc) || AddingOf(th'.pc) == -1
    requires var e := ExclusiveOf(th'.pc);
             e >= 0 && e in s.objs ==> e in s'.objs && (s.objs[e].added ==> s'.objs[e].added) && InWheel(s', e) == InWheel(s, e)
    requires var a := AddingOf(th'.pc);
             a >= 0 && a in s.objs ==> a in s'.objs && (s.objs[a].added ==> s'.objs[a].added) && InMap(s', a) == InMap(s, a)
    ensures RoleOk(s', th')
  {}

  lemma FieldFrame(s: Store, s': Store, tid: Tid, t: Ptr)
    requires OthersKept(s, s', tid)
    requires t in s.objs && t in s'.objs && WheelFieldOk(s, t)
    requires s'.objs[t].added == s.objs[t].added && s'.objs[t].wheel == s.objs[t].wheel
    requires InWheel(s', t) == InWheel(s, t)
    requires ExclusiveOf(s.threads[tid].pc) == t ==> ExclusiveOf(s'.threads[tid].pc) == t
    ensures WheelFieldOk(s', t)
  {
    if Owned(s, t) {
      var u :| u in s.threads && ExclusiveOf(s.threads[u].pc) == t;
      assert u in s'.threads && ExclusiveOf(s'.threads[u].pc) == t;
    }
  }

  /** Threads that keep or give up their roles stay apart. */
  lemma PairsFrame(s: Store, s': Store, tid: Tid)
    requires |s.chains| > 0 && |s'.chains| > 0 && ExclusionOk(s) && OthersKept(s, s', tid)
    requires var th, th' := s.threads[tid], s'.threads[tid];
             (ExclusiveOf(th'.pc) == ExclusiveOf(th.pc) || ExclusiveOf(th'.pc) == -1)
             && (AddingOf(th'.pc) == AddingOf(th.pc) || AddingOf(th'.pc) == -1)
    requires RemovingOf(s'.threads[tid]) >= 0 ==>
             forall u :: u in s.threads && u != tid ==> ExclusiveOf(s.threads[u].pc) != RemovingOf(s'.threads[tid])
    requires forall u :: u in s'.threads ==> RoleOk(s', s'.threads[u])
    ensures ExclusionOk(s')
  {
    forall u, v | u in s'.threads && v in s'.threads && u != v
      ensures Apart(s'.threads[u], s'.threads[v])
    {
      assert Apart(s.threads[u], s.threads[v]);
    }
  }

  /** Locks are unaffected by a step that stays inside, or outside, the same chain. */
  lemma LocksKept(s: Store, s': Store, tid: Tid)
    requires |s.chains| == |s'.chains| > 0 && LocksOk(s) && OthersKept(s, s', tid)
    requires s'.lockedBy == s.lockedBy
    requires forall p :: p in s.objs ==> p in s'.objs && s'.objs[p].id == s.objs[p].id
    requires forall u :: u in s.threads && FlightOf(s.threads[u].pc) >= 0 ==> FlightOf(s.threads[u].pc) in s.objs
    requires Inside(s', s'.threads[tid].pc) == Inside(s, s.threads[tid].pc)
    ensures LocksOk(s')
  {}

  lemma FlightsExist(s: Store)
    requires Inv(s)
    ensures forall u :: u in s.threads && FlightOf(s.threads[u].pc) >= 0 ==> FlightOf(s.threads[u].pc) in s.objs
  {
    assert forall u :: u in s.threads ==> PcOk(s, u);
  }

  lemma BeginFindPc(s: Store, tid: Tid, id: nat, x: nat)
    requires Inv(s) && Enabled(s, tid, BeginFind(id, x))
    ensures PcOk(Next(s, tid, BeginFind(id, x)), tid)
  {
    hide LocksOk, ChainsOk, WheelsOk, ExclusionOk, CountOk;
    assert PcOk(s, tid);
  }

  lemma BeginFindKeepsInv(s: Store, tid: Tid, id: nat, x: nat)
    requires Inv(s) && Enabled(s, tid, BeginFind(id, x))
    ensures Inv(Next(s, tid, BeginFind(id, x)))
  {
    hide PcOk, LocksOk, ChainsOk, WheelsOk, ExclusionOk, CountOk, WheelFieldOk;
    if id > 0 {
      BeginFindPc(s, tid, id, x);
      FlightsExist(s);
      LocksKept(s, Next(s, tid, BeginFind(id, x)), tid);
      PcOnlyStep(s, Next(s, tid, BeginFind(id, x)), tid);
    }
  }

  lemma BeginRemovePc(s: Store, tid: Tid, id: nat)
    requires Inv(s) && Enabled(s, tid, BeginRemove(id))
    ensures PcOk(Next(s, tid, BeginRemove(id)), tid)
  {
    hide LocksOk, ChainsOk, WheelsOk, ExclusionOk, CountOk;
    assert PcOk(s, tid);
  }

  lemma BeginRemoveKeepsInv(s: Store, tid: Tid, id: nat)
    requires Inv(s) && Enabled(s, tid, BeginRemove(id))
    ensures Inv(Next(s, tid, BeginRemove(id)))
  {
    hide PcOk, LocksOk, ChainsOk, WheelsOk, ExclusionOk, CountOk, WheelFieldOk;
    BeginRemovePc(s, tid, id);
    FlightsExist(s);
    LocksKept(s, Next(s, tid, BeginRemove(id)), tid);
    PcOnlyStep(s, Next(s, tid, BeginRemove(id)), tid);
  }

  lemma AcquirePc(s: Store, tid: Tid)
    requires Inv(s) && Enabled(s, tid, Acquire)
    ensures PcOk(Next(s, tid, Acquire), tid)
  {
    hide LocksOk, ChainsOk, WheelsOk, ExclusionOk, CountOk;
    assert PcOk(s, tid);
  }

  lemma AcquireLocks(s: Store, tid: Tid)
    requires Inv(s) && Enabled(s, tid, Acquire)
    ensures LocksOk(Next(s, tid, Acquire))
  {
    hide PcOk, ChainsOk, WheelsOk, ExclusionOk, CountOk, WheelFieldOk;
    FlightsExist(s);
  }

  lemma AcquireKeepsInv(s: Store, tid: Tid)
    requires Inv(s) && Enabled(s, tid, Acquire)
    ensures Inv(Next(s, tid, Acquire))
  {
    hide PcOk, LocksOk, ChainsOk, WheelsOk, ExclusionOk, CountOk, WheelFieldOk;
    AcquirePc(s, tid);
    AcquireLocks(s, tid);
    PcOnlyStep(s, Next(s, tid, Acquire), tid);
  }

  lemma PassPc(s: Store, tid: Tid)
    requires Inv(s) && Enabled(s, tid, Pass)
    ensures PcOk(Next(s, tid, Pass), tid)
  {
    hide LocksOk, ChainsOk, WheelsOk, ExclusionOk, CountOk;
    assert PcOk(s, tid);
  }

  lemma PassKeepsInv(s: Store, tid: Tid)
    requires Inv(s) && Enabled(s, tid, Pass)
    ensures Inv(Next(s, tid, Pass))
  {
    hide PcOk, LocksOk, ChainsOk, WheelsOk, ExclusionOk, CountOk, WheelFieldOk;
    PassPc(s, tid);
    FlightsExist(s);
    LocksKept(s, Next(s, tid, Pass), tid);
    PcOnlyStep(s, Next(s, tid, Pass), tid);
  }

  lemma EndOfChainPc(s: Store, tid: Tid)
    requires Inv(s) && Enabled(s, tid, EndOfChain)
    ensures PcOk(Next(s, tid, EndOfChain), tid)
  {
    hide LocksOk, ChainsOk, WheelsOk, ExclusionOk, CountOk;
    assert PcOk(s, tid);
  }

  lemma EndOfChainKeepsInv(s: Store, tid: Tid)
    requires Inv(s) && Enabled(s, tid, EndOfChain)
    ensures Inv(Next(s, tid, EndOfChain))
  {
    hide PcOk, LocksOk, ChainsOk, WheelsOk, ExclusionOk, CountOk, WheelFieldOk;
    EndOfChainPc(s, tid);
    FlightsExist(s);
    LocksKept(s, Next(s, tid, EndOfChain), tid);
    PcOnlyStep(s, Next(s, tid, EndOfChain), tid);
  }

  lemma ReleasePc(s: Store, tid: Tid)
    requires Enabled(s, tid, Release) && PcOk(s, tid) && s.lockedBy[s.threads[tid].pc.h] == tid
    ensures PcOk(Next(s, tid, Release), tid)
  {}

  /** The assertion in `unlockTimerList` holds: the lock is held by the thread inside. */
  lemma ReleaseLocks(s: Store, tid: Tid)
    requires Inv(s) && Enabled(s, tid, Release)
    ensures LocksOk(Next(s, tid, Release))
    ensures s.lockedBy[s.threads[tid].pc.h] == tid
  {
    hide PcOk, ChainsOk, WheelsOk, ExclusionOk, CountOk, WheelFieldOk;
    FlightsExist(s);
    assert Inside(s, s.threads[tid].pc) == s.threads[tid].pc.h;
  }

  lemma ReleaseKeepsInv(s: Store, tid: Tid)
    requires Inv(s) && Enabled(s, tid, Release)
    ensures Inv(Next(s, tid, Release))
  {
    hide PcOk, LocksOk, ChainsOk, WheelsOk, ExclusionOk, CountOk, WheelFieldOk;
    ReleaseLocks(s, tid);
    ReleasePc(s, tid);
    PcOnlyStep(s, Next(s, tid, Release), tid);
  }

  lemma BeginWheelRemovePc(s: Store, tid: Tid, x: nat)
    requires |s.chains| > 0 && Enabled(s, tid, BeginWheelRemove(x)) && PcOk(s, tid)
    requires s.objs[s.threads[tid].refs[x]].wheel <= NO_WHEEL && WheelFieldOk(s, s.threads[tid].refs[x])
    ensures PcOk(Next(s, tid, BeginWheelRemove(x)), tid)
  {}

  lemma FieldsInRange(s: Store, t: Ptr)
    requires WheelsOk(s) && t in s.objs
    ensures s.objs[t].wheel <= NO_WHEEL
  {}

  lemma BeginWheelRemoveKeepsInv(s: Store, tid: Tid, x: nat)
    requires Inv(s) && Enabled(s, tid, BeginWheelRemove(x))
    ensures Inv(Next(s, tid, BeginWheelRemove(x)))
  {
    hide PcOk, LocksOk, ChainsOk, WheelsOk, ExclusionOk, CountOk, WheelFieldOk;
    if s.objs[s.threads[tid].refs[x]].wheel < NO_WHEEL {
      FieldsInRange(s, s.threads[tid].refs[x]);
      BeginWheelRemovePc(s, tid, x);
      FlightsExist(s);
      LocksKept(s, Next(s, tid, BeginWheelRemove(x)), tid);
      PcOnlyStep(s, Next(s, tid, BeginWheelRemove(x)), tid);
    }
  }

  lemma ReadWheelPc(s: Store, tid: Tid)
    requires |s.chains| > 0 && Enabled(s, tid, ReadWheel) && StepIsSafe(s, tid, ReadWheel) && PcOk(s, tid)
    ensures PcOk(Next(s, tid, ReadWheel), tid)
  {}

  lemma ReadWheelKeepsInv(s: Store, tid: Tid)
    requires Inv(s) && Enabled(s, tid, ReadWheel) && StepIsSafe(s, tid, ReadWheel)
    ensures Inv(Next(s, tid, ReadWheel))
  {
    hide PcOk, LocksOk, ChainsOk, WheelsOk, ExclusionOk, CountOk, WheelFieldOk;
    ReadWheelPc(s, tid);
    ReadWheelRoles(s, tid);
    FlightsExist(s);
    LocksKept(s, Next(s, tid, ReadWheel), tid);
    PcOnlyStep(s, Next(s, tid, ReadWheel), tid);
  }

  /** Nobody owns a timer that a thread is removing. */
  lemma ReadWheelRoles(s: Store, tid: Tid)
    requires |s.chains| > 0 && ExclusionOk(s) && tid in s.threads && RemovingOf(s.threads[tid]) >= 0
    ensures forall u :: u in s.threads && u != tid ==> ExclusiveOf(s.threads[u].pc) != RemovingOf(s.threads[tid])
  {
    forall u | u in s.threads && u != tid
      ensures ExclusiveOf(s.threads[u].pc) != RemovingOf(s.threads[tid])
    {
      assert Apart(s.threads[u], s.threads[tid]);
    }
  }

  // ----- steps that change the references to one timer -----

  /** Object `t` got `o`: same place everywhere, other references. */
  ghost predicate Recounted(s: Store, s': Store, t: Ptr) {
    && t in s.objs
    && s'.chains == s.chains && s'.lockedBy == s.lockedBy && s'.wheels == s.wheels
    && s'.objs.Keys == s.objs.Keys
    && (forall p :: p in s.objs && p != t ==> s'.objs[p] == s.objs[p])
    && var o, o' := s.objs[t], s'.objs[t];
       && o'.id == o.id && o'.wheel == o.wheel && o'.slot == o.slot && o'.links == o.links && o'.wins == o.wins
       && (o.added ==> o'.added) && (o.life.Freed? ==> o'.life.Freed?)
  }

  lemma RecountedMembership(s: Store, s': Store, t: Ptr, p: Ptr)
    requires |s.chains| > 0 && Recounted(s, s', t)
    ensures InMap(s', p) == InMap(s, p) && InWheel(s', p) == InWheel(s, p)
  {}

  /**
   * A step that recounts `t`: the invariant survives if the count of `t` and the new
   * role of the thread are right.
   */
  lemma RecountStep(s: Store, s': Store, tid: Tid, t: Ptr)
    requires Inv(s) && OthersKept(s, s', tid) && Recounted(s, s', t)
    requires forall p :: p in s.objs && p != t ==> SameUse(s.threads[tid], s'.threads[tid], p)
    requires PcOk(s', tid) && LocksOk(s') && CountOk(s', t)
    requires s'.objs[t].added && s'.objs[t].wheel < NO_WHEEL ==> InWheel(s', t) || Owned(s', t)
    requires forall p :: p in s.objs && p != t && ExclusiveOf(s.threads[tid].pc) == p ==>
               ExclusiveOf(s'.threads[tid].pc) == p
    requires ExclusionOk(s')
    ensures Inv(s')
  {
    hide PcOk, LocksOk, ChainsOk, WheelsOk, ExclusionOk, CountOk, WheelFieldOk, InMap, SameUse;
    WheelFieldOf(s', t);
    forall u | u in s'.threads
      ensures PcOk(s', u)
    {
      if u != tid { RecountedPc(s, s', t, u); }
    }
    forall p | p in s'.objs
      ensures CountOk(s', p) && WheelFieldOk(s', p)
    {
      if p != t {
        RecountedMembership(s, s', t, p);
        CountFrame(s, s', tid, p);
        FieldFrame(s, s', tid, p);
      }
    }
    SameChains(s, s');
    SameWheels(s, s');
  }

  lemma WheelFieldOf(s: Store, t: Ptr)
    requires t in s.objs
    requires s.objs[t].added && s.objs[t].wheel < NO_WHEEL ==> InWheel(s, t) || Owned(s, t)
    ensures WheelFieldOk(s, t)
  {}

  lemma RecountedPc(s: Store, s': Store, t: Ptr, u: Tid)
    requires |s.chains| > 0 && Recounted(s, s', t)
    requires u in s.threads && u in s'.threads && s'.threads[u] == s.threads[u] && PcOk(s, u)
    ensures PcOk(s', u)
  {
    if RemovingOf(s.threads[u]) >= 0 { RecountedMembership(s, s', t, RemovingOf(s.threads[u])); }
    PcFrame(s, s', u);
  }

  /** The roles after a recount that gives `tid` no new role. */
  lemma RecountedRoles(s: Store, s': Store, tid: Tid, t: Ptr)
    requires Inv(s) && OthersKept(s, s', tid) && Recounted(s, s', t)
    requires ExclusiveOf(s'.threads[tid].pc) == -1 && AddingOf(s'.threads[tid].pc) == -1
    requires RemovingOf(s'.threads[tid]) == -1
    ensures ExclusionOk(s')
  {
    forall u | u in s'.threads
      ensures RoleOk(s', s'.threads[u])
    {
      if u != tid { RecountedRole(s, s', t, s.threads[u]); }
    }
    PairsFrame(s, s', tid);
  }

  lemma RecountedRole(s: Store, s': Store, t: Ptr, th: Thread)
    requires |s.chains| > 0 && Recounted(s, s', t) && RoleOk(s, th)
    ensures RoleOk(s', th)
  {
    if ExclusiveOf(th.pc) >= 0 { RecountedMembership(s, s', t, ExclusiveOf(th.pc)); }
    if AddingOf(th.pc) >= 0 { RecountedMembership(s, s', t, AddingOf(th.pc)); }
    RoleFrame(s, s', th, th);
  }

  /** Adding one holder: the counter follows, and the timer is live. */
  lemma TakesReference(s: Store, s': Store, tid: Tid, t: Ptr, h: Holder)
    requires |s.chains| > 0 && t in s.objs && CountOk(s, t) && OthersKept(s, s', tid) && Recounted(s, s', t)
    requires h == Flight(tid) || exists x :: h == Ref(tid, x)
    requires !IsHolder(s, t, h) && !s.objs[t].life.Freed?
    requires s'.objs[t].holders == AddRef(s.objs[t], h).holders
             && s'.objs[t].refCount == AddRef(s.objs[t], h).refCount
             && s'.objs[t].life == AddRef(s.objs[t], h).life
    requires FlightOf(s'.threads[tid].pc) == t <==> FlightOf(s.threads[tid].pc) == t || h == Flight(tid)
    requires forall x :: x in s'.threads[tid].refs && s'.threads[tid].refs[x] == t <==>
               (x in s.threads[tid].refs && s.threads[tid].refs[x] == t) || h == Ref(tid, x)
    ensures CountOk(s', t)
  {
    RecountedMembership(s, s', t, t);
    HoldersChange(s, s', tid, t, {}, {h});
    AddRefCounts(s.objs[t], h);
  }

  /** Dropping one holder: the timer is freed exactly if it was the last. */
  lemma DropsReference(s: Store, s': Store, tid: Tid, t: Ptr, h: Holder)
    requires |s.chains| > 0 && t in s.objs && CountOk(s, t) && DropIsSafe(s.objs[t]) && OthersKept(s, s', tid) && Recounted(s, s', t)
    requires h == Flight(tid) || exists x :: h == Ref(tid, x)
    requires IsHolder(s, t, h)
    requires s'.objs[t] == DecRef(s.objs[t], h)
    requires FlightOf(s'.threads[tid].pc) == t <==> FlightOf(s.threads[tid].pc) == t && h != Flight(tid)
    requires forall x :: x in s'.threads[tid].refs && s'.threads[tid].refs[x] == t <==>
               x in s.threads[tid].refs && s.threads[tid].refs[x] == t && h != Ref(tid, x)
    ensures CountOk(s', t)
    ensures s'.objs[t].life.Freed? <==> s'.objs[t].holders == {}
  {
    RecountedMembership(s, s', t, t);
    HoldersChange(s, s', tid, t, {h}, {});
    DecRefCounts(s.objs[t], h);
  }

  lemma HeldIsLive(s: Store, t: Ptr, h: Holder)
    requires |s.chains| > 0 && t in s.objs && CountOk(s, t) && IsHolder(s, t, h)
    ensures s.objs[t].life == Live
  {}

  /** What a thread may use exists and is not freed. */
  lemma UsableIsNotFreed(s: Store, tid: Tid, t: Ptr)
    requires |s.chains| > 0 && tid in s.threads && MayUse(s, tid, t) && CountOk(s, t)
    ensures !s.objs[t].life.Freed?
  {
    if !s.objs[t].life.Fresh? {
      var x :| x in s.threads[tid].refs && s.threads[tid].refs[x] == t;
      HeldIsLive(s, t, Ref(tid, x));
    }
  }

  /** A recount that gives no new role; `h` is the holder gained or lost. */
  lemma RecountWithoutRole(s: Store, s': Store, tid: Tid, t: Ptr)
    requires Inv(s) && OthersKept(s, s', tid) && Recounted(s, s', t)
    requires forall p :: p in s.objs && p != t ==> SameUse(s.threads[tid], s'.threads[tid], p)
    requires PcOk(s', tid) && CountOk(s', t)
    requires s'.objs[t].added == s.objs[t].added
    requires ExclusiveOf(s.threads[tid].pc) == -1
    requires ExclusiveOf(s'.threads[tid].pc) == -1 && AddingOf(s'.threads[tid].pc) == -1
    requires RemovingOf(s'.threads[tid]) == -1
    requires Inside(s', s'.threads[tid].pc) == Inside(s, s.threads[tid].pc)
    ensures Inv(s')
  {
    hide PcOk, LocksOk, ChainsOk, WheelsOk, ExclusionOk, CountOk, WheelFieldOk;
    FlightsExist(s);
    LocksKept(s, s', tid);
    RecountedRoles(s, s', tid, t);
    RecountedMembership(s, s', t, t);
    FieldFrame(s, s', tid, t);
    FieldCases(s', t);
    RecountStep(s, s', tid, t);
  }

  lemma FieldCases(s: Store, t: Ptr)
    requires t in s.objs && WheelFieldOk(s, t)
    ensures s.objs[t].added && s.objs[t].wheel < NO_WHEEL ==> InWheel(s, t) || Owned(s, t)
  {}

  lemma TakeRefKeepsInv(s: Store, tid: Tid, t: Ptr, x: nat)
    requires Inv(s) && Enabled(s, tid, TakeRef(t, x))
    ensures Inv(Next(s, tid, TakeRef(t, x)))
  {
    hide LocksOk, ChainsOk, WheelsOk, ExclusionOk, CountOk, WheelFieldOk;
    var s' := Next(s, tid, TakeRef(t, x));
    UsableIsNotFreed(s, tid, t);
    assert PcOk(s, tid);
    TakesReference(s, s', tid, t, Ref(tid, x));
    RecountWithoutRole(s, s', tid, t);
  }

  lemma DropRefKeepsInv(s: Store, tid: Tid, x: nat)
    requires Inv(s) && Enabled(s, tid, DropRef(x)) && StepIsSafe(s, tid, DropRef(x))
    ensures Inv(Next(s, tid, DropRef(x)))
  {
    hide LocksOk, ChainsOk, WheelsOk, ExclusionOk, CountOk, WheelFieldOk;
    var s' := Next(s, tid, DropRef(x));
    var t := s.threads[tid].refs[x];
    assert PcOk(s, tid);
    DropsReference(s, s', tid, t, Ref(tid, x));
    RecountWithoutRole(s, s', tid, t);
  }

  /** The thread that drops the reference it has in flight. */
  lemma FlightDropped(s: Store, tid: Tid, a: Action)
    requires Enabled(s, tid, a) && PcOk(s, tid) && (a.DropMapRef? || a.DropWheelRef?)
    ensures var s', t := Next(s, tid, a), s.threads[tid].pc.t;
            PcOk(s', tid) && OthersKept(s, s', tid) && Recounted(s, s', t)
            && (forall p :: p in s.objs && p != t ==> SameUse(s.threads[tid], s'.threads[tid], p))
            && s'.objs[t].added == s.objs[t].added
            && Inside(s', s'.threads[tid].pc) == Inside(s, s.threads[tid].pc)
            && s'.objs[t] == DecRef(s.objs[t], Flight(tid))
            && FlightOf(s.threads[tid].pc) == t && FlightOf(s'.threads[tid].pc) == -1
            && s'.threads[tid].refs == s.threads[tid].refs
  {}

  lemma DropMapRefKeepsInv(s: Store, tid: Tid)
    requires Inv(s) && Enabled(s, tid, DropMapRef) && StepIsSafe(s, tid, DropMapRef)
    ensures Inv(Next(s, tid, DropMapRef))
  {
    hide PcOk, LocksOk, ChainsOk, WheelsOk, ExclusionOk, CountOk, WheelFieldOk, Recounted, SameUse, DecRef;
    FlightDropped(s, tid, DropMapRef);
    DropsReference(s, Next(s, tid, DropMapRef), tid, s.threads[tid].pc.t, Flight(tid));
    RecountWithoutRole(s, Next(s, tid, DropMapRef), tid, s.threads[tid].pc.t);
  }

  lemma DropWheelRefKeepsInv(s: Store, tid: Tid)
    requires Inv(s) && Enabled(s, tid, DropWheelRef) && StepIsSafe(s, tid, DropWheelRef)
    ensures Inv(Next(s, tid, DropWheelRef))
  {
    hide PcOk, LocksOk, ChainsOk, WheelsOk, ExclusionOk, CountOk, WheelFieldOk, Recounted, SameUse, DecRef;
    FlightDropped(s, tid, DropWheelRef);
    DropsReference(s, Next(s, tid, DropWheelRef), tid, s.threads[tid].pc.t, Flight(tid));
    RecountWithoutRole(s, Next(s, tid, DropWheelRef), tid, s.threads[tid].pc.t);
  }

  /** A node of a chain is live. */
  lemma NodeIsLive(s: Store, tid: Tid)
    requires Inv(s) && tid in s.threads && AtNode(s, s.threads[tid].pc)
    ensures var t := NodeAt(s, s.threads[tid].pc);
            InMap(s, t) && s.objs[t].life == Live
  {
    hide PcOk, LocksOk, WheelsOk, ExclusionOk, CountOk, WheelFieldOk;
    var t := NodeAt(s, s.threads[tid].pc);
    assert t in s.chains[TaskChain(s, s.threads[tid].pc.task)];
    HeldIsLive(s, t, Map);
  }

  lemma FindHitRuns(s: Store, tid: Tid)
    requires Inv(s) && Enabled(s, tid, Hit) && s.threads[tid].pc.task.Find?
    ensures var t, s', x := NodeAt(s, s.threads[tid].pc), Next(s, tid, Hit), s.threads[tid].pc.task.x;
            PcOk(s', tid) && x !in s.threads[tid].refs && s' == HitNode(s, tid)
            && OthersKept(s, s', tid) && Recounted(s, s', t)
            && FlightOf(s'.threads[tid].pc) == FlightOf(s.threads[tid].pc) == -1
            && (forall p :: p in s.objs && p != t ==> SameUse(s.threads[tid], s'.threads[tid], p))
  {
    hide LocksOk, ChainsOk, WheelsOk, ExclusionOk, CountOk, WheelFieldOk;
    assert PcOk(s, tid);
  }

  lemma FindHitCount(s: Store, tid: Tid)
    requires Inv(s) && Enabled(s, tid, Hit) && s.threads[tid].pc.task.Find?
    ensures CountOk(Next(s, tid, Hit), NodeAt(s, s.threads[tid].pc))
  {
    hide PcOk, LocksOk, ChainsOk, WheelsOk, ExclusionOk, CountOk, WheelFieldOk, Recounted, SameUse, Next, InMap, InWheel;
    NodeIsLive(s, tid);
    FindHitRuns(s, tid);
    TakesReference(s, Next(s, tid, Hit), tid, NodeAt(s, s.threads[tid].pc), Ref(tid, s.threads[tid].pc.task.x));
  }

  lemma FindHitKeepsInv(s: Store, tid: Tid)
    requires Inv(s) && Enabled(s, tid, Hit) && s.threads[tid].pc.task.Find?
    ensures Inv(Next(s, tid, Hit))
  {
    hide PcOk, LocksOk, ChainsOk, WheelsOk, ExclusionOk, CountOk, WheelFieldOk;
    FindHitRuns(s, tid);
    FindHitCount(s, tid);
    RecountWithoutRole(s, Next(s, tid, Hit), tid, NodeAt(s, s.threads[tid].pc));
  }

  // ----- steps that take a role -----

  /** Taking a role on `t` that no other thread has or contends for. */
  lemma TakesRole(s: Store, s': Store, tid: Tid, t: Ptr)
    requires |s.chains| > 0 && ExclusionOk(s) && OthersKept(s, s', tid) && Recounted(s, s', t)
    requires ExclusiveOf(s'.threads[tid].pc) == t
    requires AddingOf(s'.threads[tid].pc) == -1 || AddingOf(s'.threads[tid].pc) == t
    requires RemovingOf(s'.threads[tid]) == -1
    requires forall u :: u in s.threads && u != tid ==>
               ExclusiveOf(s.threads[u].pc) != t && RemovingOf(s.threads[u]) != t
    requires AddingOf(s'.threads[tid].pc) == t ==>
               !InMap(s, t) && forall u :: u in s.threads && u != tid ==> AddingOf(s.threads[u].pc) != t
    requires s'.objs[t].added && !InWheel(s, t)
    ensures ExclusionOk(s')
  {
    RecountedMembership(s, s', t, t);
    assert RoleOk(s', s'.threads[tid]);
    forall u | u in s'.threads
      ensures RoleOk(s', s'.threads[u])
    {
      if u != tid { RecountedRole(s, s', t, s.threads[u]); }
    }
    hide RoleOk, Recounted, InMap, InWheel;
    forall u, v | u in s'.threads && v in s'.threads && u != v
      ensures Apart(s'.threads[u], s'.threads[v])
    {
      assert Apart(s.threads[u], s.threads[v]);
    }
  }

  /** A timer not yet added is nowhere and nobody is at work on it. */
  lemma NotAddedIsNowhere(s: Store, t: Ptr)
    requires Inv(s) && t in s.objs && !s.objs[t].added
    ensures !InMap(s, t) && !InWheel(s, t)
    ensures forall u :: u in s.threads ==>
              ExclusiveOf(s.threads[u].pc) != t && RemovingOf(s.threads[u]) != t && AddingOf(s.threads[u].pc) != t
  {
    forall u | u in s.threads
      ensures ExclusiveOf(s.threads[u].pc) != t && RemovingOf(s.threads[u]) != t && AddingOf(s.threads[u].pc) != t
    {
      assert PcOk(s, u) && RoleOk(s, s.threads[u]);
    }
  }

  /** A timer that may be added, for the first time or again, is nowhere and nobody is at work on it. */
  lemma AddableIsNowhere(s: Store, tid: Tid, t: Ptr)
    requires Inv(s) && Enabled(s, tid, BeginAdd(t))
    ensures !InMap(s, t) && !InWheel(s, t)
    ensures forall u :: u in s.threads ==>
              ExclusiveOf(s.threads[u].pc) != t && RemovingOf(s.threads[u]) != t && AddingOf(s.threads[u].pc) != t
  {
    hide PcOk, LocksOk, ChainsOk, ExclusionOk, CountOk, WheelFieldOk;
    if !s.objs[t].added {
      NotAddedIsNowhere(s, t);
    }
  }

  lemma BeginAddCount(s: Store, tid: Tid, t: Ptr)
    requires Inv(s) && Enabled(s, tid, BeginAdd(t))
    ensures CountOk(Next(s, tid, BeginAdd(t)), t) && PcOk(Next(s, tid, BeginAdd(t)), tid)
  {
    hide LocksOk, ChainsOk, WheelsOk, ExclusionOk, CountOk, WheelFieldOk;
    UsableIsNotFreed(s, tid, t);
    assert PcOk(s, tid);
    TakesReference(s, Next(s, tid, BeginAdd(t)), tid, t, Flight(tid));
  }

  lemma BeginAddRoles(s: Store, tid: Tid, t: Ptr)
    requires Inv(s) && Enabled(s, tid, BeginAdd(t))
    ensures ExclusionOk(Next(s, tid, BeginAdd(t)))
  {
    hide PcOk, LocksOk, ChainsOk, WheelsOk, ExclusionOk, CountOk, WheelFieldOk, RoleOk, InMap, InWheel;
    AddableIsNowhere(s, tid, t);
    TakesRole(s, Next(s, tid, BeginAdd(t)), tid, t);
  }

  lemma BeginAddKeepsInv(s: Store, tid: Tid, t: Ptr)
    requires Inv(s) && Enabled(s, tid, BeginAdd(t))
    ensures Inv(Next(s, tid, BeginAdd(t)))
  {
    hide PcOk, LocksOk, ChainsOk, WheelsOk, ExclusionOk, CountOk, WheelFieldOk;
    var s' := Next(s, tid, BeginAdd(t));
    BeginAddCount(s, tid, t);
    BeginAddRoles(s, tid, t);
    FlightsExist(s);
    LocksKept(s, s', tid);
    assert ExclusiveOf(s'.threads[tid].pc) == t;
    RecountStep(s, s', tid, t);
  }

  lemma BeginWheelAddCount(s: Store, tid: Tid, t: Ptr, w: nat, sl: nat)
    requires Inv(s) && Enabled(s, tid, BeginWheelAdd(t, w, sl))
    ensures CountOk(Next(s, tid, BeginWheelAdd(t, w, sl)), t) && PcOk(Next(s, tid, BeginWheelAdd(t, w, sl)), tid)
  {
    hide LocksOk, ChainsOk, WheelsOk, ExclusionOk, CountOk, WheelFieldOk;
    UsableIsNotFreed(s, tid, t);
    assert PcOk(s, tid);
    TakesReference(s, Next(s, tid, BeginWheelAdd(t, w, sl)), tid, t, Flight(tid));
  }

  lemma BeginWheelAddRoles(s: Store, tid: Tid, t: Ptr, w: nat, sl: nat)
    requires Inv(s) && Enabled(s, tid, BeginWheelAdd(t, w, sl))
    ensures ExclusionOk(Next(s, tid, BeginWheelAdd(t, w, sl)))
  {
    hide PcOk, LocksOk, ChainsOk, ExclusionOk, CountOk, WheelFieldOk;
    assert !InWheel(s, t);
    TakesRole(s, Next(s, tid, BeginWheelAdd(t, w, sl)), tid, t);
  }

  lemma BeginWheelAddKeepsInv(s: Store, tid: Tid, t: Ptr, w: nat, sl: nat)
    requires Inv(s) && Enabled(s, tid, BeginWheelAdd(t, w, sl))
    ensures Inv(Next(s, tid, BeginWheelAdd(t, w, sl)))
  {
    hide PcOk, LocksOk, ChainsOk, WheelsOk, ExclusionOk, CountOk, WheelFieldOk;
    var s' := Next(s, tid, BeginWheelAdd(t, w, sl));
    BeginWheelAddCount(s, tid, t, w, sl);
    BeginWheelAddRoles(s, tid, t, w, sl);
    FlightsExist(s);
    LocksKept(s, s', tid);
    assert ExclusiveOf(s'.threads[tid].pc) == t;
    RecountStep(s, s', tid, t);
  }
}
