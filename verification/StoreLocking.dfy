/** The chain spin locks and the progress of the threads, in every interleaving. */
module StoreLocking {
  import opened StoreModel
  import opened StoreInvariant

  // ----- mutual exclusion -----

  /**
   * At most one thread is between lock and unlock of a chain; the lock word names it, and
   * is 0 when nobody is; and the assertion in `unlockTimerList` has failed in no thread.
   */
  lemma ChainLocksExclude(s: Store, h: nat)
    requires Inv(s) && h < |s.chains|
    ensures |s.lockedBy| == |s.chains|
    ensures forall u :: u in s.threads ==> (s.lockedBy[h] == u <==> Inside(s, s.threads[u].pc) == h)
    ensures forall u, v :: u in s.threads && v in s.threads && u != v ==>
              !(Inside(s, s.threads[u].pc) == h && Inside(s, s.threads[v].pc) == h)
    ensures s.lockedBy[h] == 0 <==> forall u :: u in s.threads ==> Inside(s, s.threads[u].pc) != h
    ensures forall u :: u in s.threads ==> !s.threads[u].pc.Failed?
  {
    hide ChainsOk, WheelsOk, ExclusionOk, CountOk, WheelFieldOk;
    forall u | u in s.threads
      ensures !s.threads[u].pc.Failed?
    {
      assert PcOk(s, u);
    }
    hide PcOk, Inside;
    forall u, v | u in s.threads && v in s.threads && u != v
      ensures !(Inside(s, s.threads[u].pc) == h && Inside(s, s.threads[v].pc) == h)
    {
      assert s.lockedBy[h] == u <==> Inside(s, s.threads[u].pc) == h;
      assert s.lockedBy[h] == v <==> Inside(s, s.threads[v].pc) == h;
    }
  }

  /** The chain a step rewrites, or -1. */
  function WritesChain(s: Store, tid: Tid, a: Action): int
    requires Enabled(s, tid, a)
  {
    match a
    case Push => TaskChain(s, s.threads[tid].pc.task)
    case Hit => if s.threads[tid].pc.task.Remove? then TaskChain(s, s.threads[tid].pc.task) else -1
    case _ => -1
  }

  lemma WritesInside(s: Store, tid: Tid, a: Action, h: nat)
    requires Enabled(s, tid, a) && h < |s.chains|
    ensures Next(s, tid, a).chains[h] != s.chains[h] ==> WritesChain(s, tid, a) == h
    ensures WritesChain(s, tid, a) == h ==> Inside(s, s.threads[tid].pc) == h
  {}

  /** While a thread is inside a chain, the steps of the others leave that chain alone. */
  lemma LockedChainIsStable(s: Store, tid: Tid, u: Tid, a: Action, h: nat)
    requires Inv(s) && h < |s.chains| && tid in s.threads && Inside(s, s.threads[tid].pc) == h
    requires Enabled(s, u, a) && u != tid
    ensures Next(s, u, a).chains[h] == s.chains[h]
  {
    ChainLocksExclude(s, h);
    hide Inv, Inside, Enabled, Next;
    WritesInside(s, u, a, h);
  }

  // ----- every operation can go on -----

  /** The next step of a thread in the middle of an operation. */
  function ProgramStep(s: Store, pc: Pc): Action
    requires |s.chains| > 0 && |s.lockedBy| == |s.chains| && !pc.Idle? && !pc.Failed? && !pc.OutOfBounds?
  {
    match pc
    case AddInit(_) => InitWheel
    case Lock(task) => if s.lockedBy[TaskChain(s, task)] == 0 then Acquire else Spin
    case Walk(Add(_), _) => Push
    case Walk(task, k) =>
      var q := s.chains[TaskChain(s, task)];
      if k >= |q| then EndOfChain
      else if q[k] in s.objs && s.objs[q[k]].id == TaskId(s, task) then Hit else Pass
    case RemDec(_, _) => DropMapRef
    case Unlock(_) => Release
    case WheelSet(_, _, _) => SetWheel
    case WheelLink(_, _) => LinkWheel
    case WheelRead(_) => ReadWheel
    case WheelUnlink(_, _) => UnlinkWheel
    case WheelDec(_) => DropWheelRef
  }

  lemma WalkersSeeTimers(s: Store, tid: Tid)
    requires Inv(s) && tid in s.threads && s.threads[tid].pc.Walk?
    ensures var pc := s.threads[tid].pc;
            var q := s.chains[TaskChain(s, pc.task)];
            (forall j :: 0 <= j < |q| ==> q[j] in s.objs) && (!pc.task.Add? ==> pc.k <= |q|)
  {
    hide LocksOk, WheelsOk, ExclusionOk, CountOk, WheelFieldOk;
    assert PcOk(s, tid);
    var pc := s.threads[tid].pc;
    var q := s.chains[TaskChain(s, pc.task)];
    forall j | 0 <= j < |q|
      ensures q[j] in s.objs
    {
      assert q[j] in s.chains[TaskChain(s, pc.task)];
    }
  }

  lemma UnlinkerSeesTimer(s: Store, tid: Tid)
    requires Inv(s) && tid in s.threads && s.threads[tid].pc.WheelUnlink?
    ensures Enabled(s, tid, UnlinkWheel)
  {
    hide LocksOk, ChainsOk, WheelsOk, ExclusionOk, CountOk, WheelFieldOk;
    assert s.threads[tid].pc.x in s.threads[tid].refs;
    LocksGiven(s);
    assert PcOk(s, tid);
  }

  lemma LocksGiven(s: Store)
    requires |s.chains| > 0 && LocksOk(s)
    ensures |s.lockedBy| == |s.chains|
  {}

  lemma PlainStepEnabled(s: Store, tid: Tid)
    requires |s.chains| > 0 && |s.lockedBy| == |s.chains| && tid in s.threads && PcOk(s, tid)
    requires var pc := s.threads[tid].pc; !pc.Idle? && !pc.Walk? && !pc.WheelUnlink?
    ensures Enabled(s, tid, ProgramStep(s, s.threads[tid].pc))
  {}

  lemma WalkStepEnabled(s: Store, tid: Tid)
    requires |s.chains| > 0 && |s.lockedBy| == |s.chains| && tid in s.threads && PcOk(s, tid)
    requires s.threads[tid].pc.Walk?
    requires var pc := s.threads[tid].pc;
             var q := s.chains[TaskChain(s, pc.task)];
             (forall j :: 0 <= j < |q| ==> q[j] in s.objs) && (!pc.task.Add? ==> pc.k <= |q|)
    ensures Enabled(s, tid, ProgramStep(s, s.threads[tid].pc))
  {}

  /**
   * No thread is ever stuck inside an operation: the code's next step is possible, and it
   * is the only step the thread can take.
   */
  lemma NeverStuck(s: Store, tid: Tid)
    requires Inv(s) && tid in s.threads && !s.threads[tid].pc.Idle?
    ensures |s.lockedBy| == |s.chains| && !s.threads[tid].pc.Failed? && !s.threads[tid].pc.OutOfBounds?
    ensures Enabled(s, tid, ProgramStep(s, s.threads[tid].pc))
    ensures forall a :: Enabled(s, tid, a) ==> a == ProgramStep(s, s.threads[tid].pc)
  {
    hide LocksOk, ChainsOk, WheelsOk, ExclusionOk, CountOk, WheelFieldOk, PcOk, Enabled, ProgramStep;
    LocksGiven(s);
    var pc := s.threads[tid].pc;
    assert PcOk(s, tid);
    NotFailed(s, tid);
    if pc.Walk? {
      WalkersSeeTimers(s, tid);
      WalkStepEnabled(s, tid);
    } else if pc.WheelUnlink? {
      UnlinkerSeesTimer(s, tid);
      StepOfUnlinker(s, pc);
    } else {
      PlainStepEnabled(s, tid);
    }
    forall a | Enabled(s, tid, a)
      ensures a == ProgramStep(s, pc)
    {
      OneStep(s, tid, a);
    }
  }

  lemma NotFailed(s: Store, tid: Tid)
    requires |s.chains| > 0 && tid in s.threads && PcOk(s, tid)
    ensures !s.threads[tid].pc.Failed? && !s.threads[tid].pc.OutOfBounds?
  {}

  lemma StepOfUnlinker(s: Store, pc: Pc)
    requires |s.chains| > 0 && |s.lockedBy| == |s.chains| && pc.WheelUnlink?
    ensures ProgramStep(s, pc) == UnlinkWheel
  {}

  lemma OneStep(s: Store, tid: Tid, a: Action)
    requires Enabled(s, tid, a)
    requires !s.threads[tid].pc.Idle? && !s.threads[tid].pc.Failed? && !s.threads[tid].pc.OutOfBounds?
    ensures a == ProgramStep(s, s.threads[tid].pc)
  {}
}
