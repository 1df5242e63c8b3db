/** The steps that write the wheel field of a timer. */
module StoreFieldSteps {
  import opened StoreModel
  import opened StoreInvariant
  import opened StoreSteps

  // ----- writing the wheel field of an owned timer -----

  /** `t`, owned by `tid` and in no list, names wheel `w` now. */
  ghost predicate Renamed(s: Store, s': Store, tid: Tid, t: Ptr, w: nat) {
    && OthersKept(s, s', tid) && t in s.objs
    && s'.chains == s.chains && s'.lockedBy == s.lockedBy && s'.wheels == s.wheels
    && s'.objs == s.objs[t := s.objs[t].(wheel := w)]
    && s'.threads[tid].refs == s.threads[tid].refs
    && ExclusiveOf(s.threads[tid].pc) == t
    && w <= NO_WHEEL
    && FlightOf(s'.threads[tid].pc) == FlightOf(s.threads[tid].pc)
    && AddingOf(s'.threads[tid].pc) == AddingOf(s.threads[tid].pc)
    && RemovingOf(s'.threads[tid]) == -1
  }

  /** An owned timer is in no wheel list at all. */
  lemma OwnedIsInNoList(s: Store, tid: Tid, t: Ptr)
    requires |s.chains| > 0 && tid in s.threads && ExclusiveOf(s.threads[tid].pc) == t
    requires WheelsOk(s) && RoleOk(s, s.threads[tid])
    ensures forall key :: key in s.wheels ==> t !in s.wheels[key]
  {}

  lemma RenamedMembership(s: Store, s': Store, tid: Tid, t: Ptr, w: nat, p: Ptr)
    requires |s.chains| > 0 && Renamed(s, s', tid, t, w)
    requires WheelsOk(s) && RoleOk(s, s.threads[tid])
    ensures InMap(s', p) == InMap(s, p) && InWheel(s', p) == InWheel(s, p)
  {
    OwnedIsInNoList(s, tid, t);
  }

  lemma RenamedWheels(s: Store, s': Store, tid: Tid, t: Ptr, w: nat)
    requires |s.chains| > 0 && Renamed(s, s', tid, t, w)
    requires WheelsOk(s) && RoleOk(s, s.threads[tid])
    ensures WheelsOk(s')
  {
    OwnedIsInNoList(s, tid, t);
  }

  lemma RenamedThreads(s: Store, s': Store, tid: Tid, t: Ptr, w: nat)
    requires Inv(s) && Renamed(s, s', tid, t, w) && PcOk(s', tid)
    ensures forall u :: u in s'.threads ==> PcOk(s', u) && RoleOk(s', s'.threads[u])
  {
    hide PcOk, LocksOk, ChainsOk, CountOk, WheelFieldOk;
    forall u | u in s'.threads
      ensures PcOk(s', u) && RoleOk(s', s'.threads[u])
    {
      RenamedThread(s, s', tid, t, w, u);
    }
  }

  lemma RenamedThread(s: Store, s': Store, tid: Tid, t: Ptr, w: nat, u: Tid)
    requires |s.chains| > 0 && Renamed(s, s', tid, t, w) && PcOk(s', tid) && u in s.threads
    requires WheelsOk(s) && ExclusionOk(s) && PcOk(s, u)
    ensures PcOk(s', u) && RoleOk(s', s'.threads[u])
  {
    var th := s.threads[u];
    assert RoleOk(s, s.threads[tid]) && RoleOk(s, th);
    if ExclusiveOf(th.pc) >= 0 { RenamedMembership(s, s', tid, t, w, ExclusiveOf(th.pc)); }
    if AddingOf(th.pc) >= 0 { RenamedMembership(s, s', tid, t, w, AddingOf(th.pc)); }
    if RemovingOf(th) >= 0 { RenamedMembership(s, s', tid, t, w, RemovingOf(th)); }
    if u != tid {
      assert Apart(s.threads[tid], th);
      hide WheelsOk;
      PcFrame(s, s', u);
      RoleFrame(s, s', th, th);
    } else {
      RenamedMembership(s, s', tid, t, w, t);
    }
  }

  lemma RenameStep(s: Store, s': Store, tid: Tid, t: Ptr, w: nat)
    requires Inv(s) && Renamed(s, s', tid, t, w) && PcOk(s', tid)
    requires ExclusiveOf(s'.threads[tid].pc) == t || (ExclusiveOf(s'.threads[tid].pc) == -1 && w == NO_WHEEL)
    requires Inside(s', s'.threads[tid].pc) == Inside(s, s.threads[tid].pc)
    ensures Inv(s')
  {
    hide PcOk, LocksOk, ChainsOk, WheelsOk, ExclusionOk, CountOk, WheelFieldOk, RoleOk;
    RoleOfThread(s, tid);
    RenamedThreads(s, s', tid, t, w);
    RenamedWheels(s, s', tid, t, w);
    PairsFrame(s, s', tid);
    SameChains(s, s');
    FlightsExist(s);
    LocksKept(s, s', tid);
    RenamedCounts(s, s', tid, t, w);
  }

  lemma RenamedCounts(s: Store, s': Store, tid: Tid, t: Ptr, w: nat)
    requires Inv(s) && Renamed(s, s', tid, t, w)
    requires ExclusiveOf(s'.threads[tid].pc) == t || (ExclusiveOf(s'.threads[tid].pc) == -1 && w == NO_WHEEL)
    ensures forall p :: p in s'.objs ==> CountOk(s', p) && WheelFieldOk(s', p)
  {
    hide PcOk, LocksOk, ChainsOk, WheelsOk, ExclusionOk, CountOk, WheelFieldOk, RoleOk;
    RoleOfThread(s, tid);
    forall p | p in s'.objs
      ensures CountOk(s', p) && WheelFieldOk(s', p)
    {
      RenamedMembership(s, s', tid, t, w, p);
      RenamedCount(s, s', tid, t, w, p);
    }
  }

  lemma RoleOfThread(s: Store, tid: Tid)
    requires |s.chains| > 0 && ExclusionOk(s) && tid in s.threads
    ensures RoleOk(s, s.threads[tid])
  {}

  lemma RenamedCount(s: Store, s': Store, tid: Tid, t: Ptr, w: nat, p: Ptr)
    requires |s.chains| > 0 && Renamed(s, s', tid, t, w) && p in s.objs && CountOk(s, p) && WheelFieldOk(s, p)
    requires InMap(s', p) == InMap(s, p) && InWheel(s', p) == InWheel(s, p)
    requires ExclusiveOf(s'.threads[tid].pc) == t || (ExclusiveOf(s'.threads[tid].pc) == -1 && w == NO_WHEEL)
    ensures CountOk(s', p) && WheelFieldOk(s', p)
  {
    if p != t {
      CountFrame(s, s', tid, p);
      FieldFrame(s, s', tid, p);
    } else {
      HoldersChange(s, s', tid, t, {}, {});
      assert tid in s'.threads;
    }
  }

  lemma InitWheelPc(s: Store, tid: Tid)
    requires |s.chains| > 0 && tid in s.threads && PcOk(s, tid) && Enabled(s, tid, InitWheel)
    ensures PcOk(Next(s, tid, InitWheel), tid)
    ensures Renamed(s, Next(s, tid, InitWheel), tid, s.threads[tid].pc.t, NO_WHEEL)
  {}

  lemma InitWheelKeepsInv(s: Store, tid: Tid)
    requires Inv(s) && Enabled(s, tid, InitWheel)
    ensures Inv(Next(s, tid, InitWheel))
  {
    hide PcOk, LocksOk, ChainsOk, WheelsOk, ExclusionOk, CountOk, WheelFieldOk, RoleOk;
    InitWheelPc(s, tid);
    RenameStep(s, Next(s, tid, InitWheel), tid, s.threads[tid].pc.t, NO_WHEEL);
  }

  lemma SetWheelPc(s: Store, tid: Tid)
    requires |s.chains| > 0 && tid in s.threads && PcOk(s, tid) && Enabled(s, tid, SetWheel)
    ensures PcOk(Next(s, tid, SetWheel), tid)
    ensures Renamed(s, Next(s, tid, SetWheel), tid, s.threads[tid].pc.t, s.threads[tid].pc.w)
  {}

  lemma SetWheelKeepsInv(s: Store, tid: Tid)
    requires Inv(s) && Enabled(s, tid, SetWheel)
    ensures Inv(Next(s, tid, SetWheel))
  {
    hide PcOk, LocksOk, ChainsOk, WheelsOk, ExclusionOk, CountOk, WheelFieldOk, RoleOk;
    SetWheelPc(s, tid);
    RenameStep(s, Next(s, tid, SetWheel), tid, s.threads[tid].pc.t, s.threads[tid].pc.w);
  }
}
