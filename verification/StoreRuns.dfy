/** Runs of the timer store: every interleaving of the steps of any number of threads. */
module StoreRuns {
  import opened Sequences
  import opened StoreModel
  import opened StoreInvariant
  import opened StoreSteps
  import opened StoreFieldSteps
  import opened StoreChainSteps
  import opened StoreWheelSteps

  // ----- allocating a timer -----

  /** A new timer `p` appears; nothing else changes. */
  ghost predicate Allocated(s: Store, s': Store, p: Ptr) {
    && p !in s.objs && p in s'.objs
    && s' == s.(objs := s.objs[p := s'.objs[p]])
    && !s'.objs[p].added && s'.objs[p].id != 0 && s'.objs[p].life.Fresh? && s'.objs[p].holders == {}
    && s'.objs[p].refCount == 0 && s'.objs[p].wheel == 0 && s'.objs[p].links == 0 && s'.objs[p].wins == 0
    && forall q :: q in s.objs && !s.objs[q].life.Freed? ==> s.objs[q].id != s'.objs[p].id
  }

  lemma AllocatedMembership(s: Store, s': Store, p: Ptr, t: Ptr)
    requires |s.chains| > 0 && Allocated(s, s', p) && ChainsOk(s) && WheelsOk(s)
    ensures InMap(s', t) == InMap(s, t) && InWheel(s', t) == InWheel(s, t)
  {}

  lemma AllocatedThread(s: Store, s': Store, p: Ptr, u: Tid)
    requires |s.chains| > 0 && Allocated(s, s', p) && ChainsOk(s) && WheelsOk(s)
    requires u in s.threads && PcOk(s, u) && RoleOk(s, s.threads[u])
    ensures PcOk(s', u) && RoleOk(s', s'.threads[u])
  {
    var th := s.threads[u];
    AllocatedMembership(s, s', p, if ExclusiveOf(th.pc) >= 0 then ExclusiveOf(th.pc) else p);
    AllocatedMembership(s, s', p, if AddingOf(th.pc) >= 0 then AddingOf(th.pc) else p);
    AllocatedMembership(s, s', p, if RemovingOf(th) >= 0 then RemovingOf(th) else p);
    hide ChainsOk, WheelsOk, InMap, InWheel;
    PcFrame(s, s', u);
    RoleFrame(s, s', th, th);
  }

  /** The new timer has no holder yet. */
  lemma AllocatedCount(s: Store, s': Store, p: Ptr)
    requires |s.chains| > 0 && Allocated(s, s', p) && ChainsOk(s) && WheelsOk(s)
    requires forall u :: u in s.threads ==> PcOk(s, u)
    ensures CountOk(s', p) && WheelFieldOk(s', p)
  {
    AllocatedMembership(s, s', p, p);
    hide ChainsOk, WheelsOk;
    forall h
      ensures !IsHolder(s', p, h)
    {
      if h.Flight? && h.tid in s.threads { assert PcOk(s, h.tid); }
      if h.Ref? && h.owner in s.threads { assert PcOk(s, h.owner); }
    }
  }

  lemma AllocatedOthers(s: Store, s': Store, tid: Tid, p: Ptr, t: Ptr)
    requires |s.chains| > 0 && Allocated(s, s', p) && ChainsOk(s) && WheelsOk(s) && tid in s.threads
    requires t in s.objs && CountOk(s, t) && WheelFieldOk(s, t)
    ensures CountOk(s', t) && WheelFieldOk(s', t)
  {
    AllocatedMembership(s, s', p, t);
    hide ChainsOk, WheelsOk, InMap, InWheel;
    CountFrame(s, s', tid, t);
    FieldFrame(s, s', tid, t);
  }

  lemma AllocatedChains(s: Store, s': Store, p: Ptr)
    requires |s.chains| > 0 && Allocated(s, s', p) && ChainsOk(s)
    ensures ChainsOk(s')
  {
    hide NoDuplicates;
  }

  lemma AllocatedWheels(s: Store, s': Store, p: Ptr)
    requires Allocated(s, s', p) && WheelsOk(s)
    ensures WheelsOk(s')
  {
    hide NoDuplicates;
  }

  lemma NewKeepsInv(s: Store, tid: Tid, p: Ptr, id: nat)
    requires Inv(s) && Enabled(s, tid, New(p, id))
    ensures Inv(Next(s, tid, New(p, id)))
  {
    hide PcOk, LocksOk, ChainsOk, WheelsOk, ExclusionOk, CountOk, WheelFieldOk, RoleOk;
    var s' := Next(s, tid, New(p, id));
    forall u | u in s'.threads
      ensures PcOk(s', u) && RoleOk(s', s'.threads[u])
    {
      RoleOfThread(s, u);
      AllocatedThread(s, s', p, u);
    }
    forall t | t in s'.objs
      ensures CountOk(s', t) && WheelFieldOk(s', t)
    {
      if t == p { AllocatedCount(s, s', p); } else { AllocatedOthers(s, s', tid, p, t); }
    }
    AllocatedChains(s, s', p);
    AllocatedWheels(s, s', p);
    FlightsExist(s);
    LocksKept(s, s', tid);
    IdleKeepsRoles(s, s', tid);
  }

  lemma IdleKeepsRoles(s: Store, s': Store, tid: Tid)
    requires |s.chains| > 0 && |s'.chains| > 0 && ExclusionOk(s) && tid in s.threads && s'.threads == s.threads
    requires forall u :: u in s'.threads ==> RoleOk(s', s'.threads[u])
    ensures ExclusionOk(s')
  {
    hide RoleOk, Apart;
  }

  // ----- the invariant of every interleaving -----

  lemma StepKeepsInv(s: Store, tid: Tid, a: Action)
    requires Inv(s) && Enabled(s, tid, a) && StepIsSafe(s, tid, a)
    ensures Inv(Next(s, tid, a)) && |Next(s, tid, a).chains| == |s.chains|
  {
    hide Inv;
    match a
    case New(p, id) => NewKeepsInv(s, tid, p, id);
    case TakeRef(t, x) => TakeRefKeepsInv(s, tid, t, x);
    case DropRef(x) => DropRefKeepsInv(s, tid, x);
    case BeginAdd(t) => BeginAddKeepsInv(s, tid, t);
    case InitWheel => InitWheelKeepsInv(s, tid);
    case BeginFind(id, x) => BeginFindKeepsInv(s, tid, id, x);
    case BeginRemove(id) => BeginRemoveKeepsInv(s, tid, id);
    case Acquire => AcquireKeepsInv(s, tid);
    case Spin =>
    case Push => PushKeepsInv(s, tid);
    case Pass => PassKeepsInv(s, tid);
    case Hit => if s.threads[tid].pc.task.Find? { FindHitKeepsInv(s, tid); } else { RemoveHitKeepsInv(s, tid); }
    case EndOfChain => EndOfChainKeepsInv(s, tid);
    case DropMapRef => DropMapRefKeepsInv(s, tid);
    case Release => ReleaseKeepsInv(s, tid);
    case BeginWheelAdd(t, w, sl) => BeginWheelAddKeepsInv(s, tid, t, w, sl);
    case SetWheel => SetWheelKeepsInv(s, tid);
    case LinkWheel => LinkWheelKeepsInv(s, tid);
    case BeginWheelRemove(x) => BeginWheelRemoveKeepsInv(s, tid, x);
    case ReadWheel => ReadWheelKeepsInv(s, tid);
    case UnlinkWheel => UnlinkWheelKeepsInv(s, tid);
    case DropWheelRef => DropWheelRefKeepsInv(s, tid);
  }

  /** The store before its first operation: no timer, nothing locked, every thread idle. */
  ghost predicate Initial(s: Store) {
    && s.objs == map[] && |s.chains| > 0 && |s.lockedBy| == |s.chains| && 0 !in s.threads
    && (forall h :: 0 <= h < |s.chains| ==> s.chains[h] == [] && s.lockedBy[h] == 0)
    && (forall key :: key in s.wheels ==> key.w < NO_WHEEL && s.wheels[key] == [])
    && (forall tid :: tid in s.threads ==> s.threads[tid] == Thread(Idle, map[]))
  }

  lemma InitialInv(s: Store)
    requires Initial(s)
    ensures Inv(s)
  {}

  datatype Step = Step(tid: Tid, a: Action)

  /** Every step of the run is one its thread can take. */
  ghost predicate Possible(s: Store, run: seq<Step>)
    decreases |run|
  {
    run != [] ==> Enabled(s, run[0].tid, run[0].a) && Possible(Next(s, run[0].tid, run[0].a), run[1..])
  }

  /** A possible run all of whose steps are safe. */
  ghost predicate Legal(s: Store, run: seq<Step>)
    decreases |run|
  {
    run != [] ==>
      Enabled(s, run[0].tid, run[0].a) && StepIsSafe(s, run[0].tid, run[0].a)
      && Legal(Next(s, run[0].tid, run[0].a), run[1..])
  }

  ghost function After(s: Store, run: seq<Step>): (r: Store)
    requires Legal(s, run)
    ensures |r.chains| == |s.chains|
    decreases |run|
  {
    if run == [] then s else After(Next(s, run[0].tid, run[0].a), run[1..])
  }

  /** The invariant holds after every interleaving of any number of threads. */
  lemma {:induction false} RunKeepsInv(s: Store, run: seq<Step>)
    requires Inv(s) && Legal(s, run)
    ensures Inv(After(s, run))
    decreases |run|
  {
    hide Inv, Next, Enabled, StepIsSafe;
    if run != [] {
      StepKeepsInv(s, run[0].tid, run[0].a);
      RunKeepsInv(Next(s, run[0].tid, run[0].a), run[1..]);
    }
  }

  /** An unsafe step breaks the invariant: a held timer is freed, or a mutex outside the array locked. */
  lemma UnsafeStepBreaksInv(s: Store, tid: Tid, a: Action)
    requires Inv(s) && Enabled(s, tid, a) && !StepIsSafe(s, tid, a)
    ensures !Inv(Next(s, tid, a))
  {
    hide Inv, DropIsSafe, DecRef;
    var s' := Next(s, tid, a);
    if a.ReadWheel? {
      OutOfBoundsIsWrong(s', tid);
    } else {
      var t := if a.DropRef? then s.threads[tid].refs[a.x] else s.threads[tid].pc.t;
      UnsafeDrop(s, tid, t, if a.DropRef? then Ref(tid, a.x) else Flight(tid));
      FreedWhileHeld(s', t);
    }
  }

  lemma OutOfBoundsIsWrong(s: Store, tid: Tid)
    requires |s.chains| > 0 && tid in s.threads && s.threads[tid].pc.OutOfBounds?
    ensures !Inv(s)
  {
    hide LocksOk, ChainsOk, WheelsOk, ExclusionOk, CountOk, WheelFieldOk;
    assert !PcOk(s, tid);
  }

  lemma UnsafeDrop(s: Store, tid: Tid, t: Ptr, h: Holder)
    requires |s.chains| > 0 && Inv(s) && t in s.objs && IsHolder(s, t, h) && !DropIsSafe(s.objs[t])
    ensures DecRef(s.objs[t], h).life.Freed? && DecRef(s.objs[t], h).holders != {}
  {
    hide PcOk, LocksOk, ChainsOk, WheelsOk, ExclusionOk, WheelFieldOk;
    assert CountOk(s, t);
    DecRefCounts(s.objs[t], h);
    hide Inv, IsHolder, CountOk;
    var n := |s.objs[t].holders|;
    assert (n % 256 + 255) % 256 == 0;
  }

  lemma FreedWhileHeld(s: Store, t: Ptr)
    requires |s.chains| > 0 && t in s.objs && s.objs[t].life.Freed? && s.objs[t].holders != {}
    ensures !Inv(s)
  {
    hide PcOk, LocksOk, ChainsOk, WheelsOk, ExclusionOk, WheelFieldOk;
    assert !CountOk(s, t);
  }

  /** The invariant holds in every state of the run. */
  ghost predicate InvThroughout(s: Store, run: seq<Step>)
    requires Possible(s, run)
    decreases |run|
  {
    Inv(s) && (run != [] ==> InvThroughout(Next(s, run[0].tid, run[0].a), run[1..]))
  }

  /**
   * Over every possible run, exactly: the invariant holds throughout if and only if
   * every step is safe, that is, no decrement of a counter drops one of 257, 513, ...
   * references, and no other removal of the timer wins between the two reads of one.
   */
  lemma {:induction false} InvHoldsExactly(s: Store, run: seq<Step>)
    requires Inv(s) && Possible(s, run)
    ensures InvThroughout(s, run) <==> Legal(s, run)
    decreases |run|
  {
    hide Inv, Next, Enabled, StepIsSafe;
    if run != [] {
      var tid, a := run[0].tid, run[0].a;
      if StepIsSafe(s, tid, a) {
        StepKeepsInv(s, tid, a);
        InvHoldsExactly(Next(s, tid, a), run[1..]);
      } else {
        UnsafeStepBreaksInv(s, tid, a);
      }
    }
  }
}
