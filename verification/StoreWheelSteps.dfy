/** The mutex sections of the wheels: linking a timer into a slot and unlinking it. */
module StoreWheelSteps {
  import opened Sequences
  import opened StoreModel
  import opened StoreInvariant
  import opened StoreSteps
  import opened StoreChainSteps

  /** Thread `tid` replaced the list of slot `key` by `q`, which differs in `t` only. */
  ghost predicate Relinked(s: Store, s': Store, tid: Tid, t: Ptr, key: Slot, q: seq<Ptr>) {
    && |s.chains| > 0 && OthersKept(s, s', tid) && t in s.objs && key in s.wheels
    && s'.chains == s.chains && s'.lockedBy == s.lockedBy && s'.wheels == s.wheels[key := q]
    && s'.objs.Keys == s.objs.Keys && (forall p :: p in s.objs && p != t ==> s'.objs[p] == s.objs[p])
    && s'.objs[t].id == s.objs[t].id && s'.objs[t].added && s.objs[t].added && s'.objs[t].life == s.objs[t].life
    && s'.threads[tid].refs == s.threads[tid].refs
    && Inside(s, s.threads[tid].pc) == -1 && Inside(s', s'.threads[tid].pc) == -1
    && (ExclusiveOf(s.threads[tid].pc) == -1 || ExclusiveOf(s.threads[tid].pc) == t)
    && ExclusiveOf(s'.threads[tid].pc) == -1 && AddingOf(s'.threads[tid].pc) == -1
    && RemovingOf(s'.threads[tid]) == -1
    && key.w < NO_WHEEL
    && (forall p :: p != t ==> (p in q <==> p in s.wheels[key]))
    && (if t in q then Slot(s'.objs[t].wheel, s'.objs[t].slot) == key else s'.objs[t].wheel == NO_WHEEL)
    && (forall k :: k in s.wheels && k != key ==> t !in s.wheels[k])
  }

  /** Nobody else owns the wheel fields of `t`, or, once it is linked, is about to unlink it. */
  ghost predicate Unclaimed(s: Store, tid: Tid, t: Ptr, linked: bool) {
    forall u :: u in s.threads && u != tid ==>
      ExclusiveOf(s.threads[u].pc) != t && (linked ==> RemovingOf(s.threads[u]) != t)
  }

  lemma RelinkedMembership(s: Store, s': Store, tid: Tid, t: Ptr, key: Slot, q: seq<Ptr>, p: Ptr)
    requires Relinked(s, s', tid, t, key, q) && WheelsOk(s)
    ensures InMap(s', p) == InMap(s, p)
    ensures p != t ==> InWheel(s', p) == InWheel(s, p)
    ensures InWheel(s', t) <==> t in q
  {}

  lemma RelinkedMember(s: Store, s': Store, tid: Tid, t: Ptr, key: Slot, q: seq<Ptr>, k: Slot, p: Ptr)
    requires Relinked(s, s', tid, t, key, q) && WheelsOk(s) && k in s'.wheels && p in s'.wheels[k]
    ensures p in s'.objs && Slot(s'.objs[p].wheel, s'.objs[p].slot) == k && s'.objs[p].added
  {
    hide NoDuplicates;
    if p != t { assert p in s.wheels[k]; }
  }

  lemma RelinkedWheels(s: Store, s': Store, tid: Tid, t: Ptr, key: Slot, q: seq<Ptr>)
    requires Relinked(s, s', tid, t, key, q) && WheelsOk(s) && NoDuplicates(q)
    ensures WheelsOk(s')
  {
    forall k, p | k in s'.wheels && p in s'.wheels[k]
      ensures p in s'.objs && Slot(s'.objs[p].wheel, s'.objs[p].slot) == k && s'.objs[p].added
    {
      RelinkedMember(s, s', tid, t, key, q, k, p);
    }
    hide NoDuplicates;
  }

  lemma RelinkedThread(s: Store, s': Store, tid: Tid, t: Ptr, key: Slot, q: seq<Ptr>, u: Tid)
    requires Relinked(s, s', tid, t, key, q) && WheelsOk(s) && Unclaimed(s, tid, t, t in q)
    requires u in s.threads && u != tid && PcOk(s, u) && RoleOk(s, s.threads[u])
    ensures PcOk(s', u) && RoleOk(s', s'.threads[u])
  {
    var th := s.threads[u];
    RelinkedMembership(s, s', tid, t, key, q, if ExclusiveOf(th.pc) >= 0 then ExclusiveOf(th.pc) else t);
    RelinkedMembership(s, s', tid, t, key, q, if AddingOf(th.pc) >= 0 then AddingOf(th.pc) else t);
    RelinkedMembership(s, s', tid, t, key, q, if RemovingOf(th) >= 0 then RemovingOf(th) else t);
    hide InMap, InWheel, WheelsOk;
    PcFrame(s, s', u);
    RoleFrame(s, s', th, th);
  }

  lemma RelinkedThreads(s: Store, s': Store, tid: Tid, t: Ptr, key: Slot, q: seq<Ptr>)
    requires Inv(s) && Relinked(s, s', tid, t, key, q) && Unclaimed(s, tid, t, t in q) && PcOk(s', tid)
    ensures forall u :: u in s'.threads ==> PcOk(s', u) && RoleOk(s', s'.threads[u])
  {
    hide PcOk, LocksOk, ChainsOk, WheelsOk, CountOk, WheelFieldOk, RoleOk, Unclaimed;
    forall u | u in s'.threads
      ensures PcOk(s', u) && RoleOk(s', s'.threads[u])
    {
      if u != tid {
        RelinkedThread(s, s', tid, t, key, q, u);
      } else {
        NoRole(s', s'.threads[u]);
      }
    }
  }

  lemma RelinkedField(s: Store, s': Store, tid: Tid, t: Ptr, key: Slot, q: seq<Ptr>, p: Ptr)
    requires Relinked(s, s', tid, t, key, q) && WheelsOk(s) && p in s.objs && WheelFieldOk(s, p)
    ensures WheelFieldOk(s', p)
  {
    RelinkedMembership(s, s', tid, t, key, q, p);
    hide WheelsOk, InWheel;
    if p != t { FieldFrame(s, s', tid, p); }
  }

  lemma RelinkedCount(s: Store, s': Store, tid: Tid, t: Ptr, key: Slot, q: seq<Ptr>, p: Ptr)
    requires Relinked(s, s', tid, t, key, q) && WheelsOk(s) && p in s.objs && p != t
    requires CountOk(s, p) && SameUse(s.threads[tid], s'.threads[tid], p)
    ensures CountOk(s', p)
  {
    RelinkedMembership(s, s', tid, t, key, q, p);
    CountFrame(s, s', tid, p);
  }

  lemma WheelStep(s: Store, s': Store, tid: Tid, t: Ptr, key: Slot, q: seq<Ptr>)
    requires Inv(s) && Relinked(s, s', tid, t, key, q) && Unclaimed(s, tid, t, t in q)
    requires PcOk(s', tid) && CountOk(s', t) && NoDuplicates(q)
    requires forall p :: p in s.objs && p != t ==> SameUse(s.threads[tid], s'.threads[tid], p)
    ensures Inv(s')
  {
    hide PcOk, LocksOk, ChainsOk, WheelsOk, ExclusionOk, CountOk, WheelFieldOk, RoleOk, Unclaimed, NoDuplicates, SameUse;
    RelinkedWheels(s, s', tid, t, key, q);
    RelinkedThreads(s, s', tid, t, key, q);
    forall p | p in s'.objs
      ensures CountOk(s', p) && WheelFieldOk(s', p)
    {
      if p != t { RelinkedCount(s, s', tid, t, key, q, p); }
      RelinkedField(s, s', tid, t, key, q, p);
    }
    PairsFrame(s, s', tid);
    SameChains(s, s');
    FlightsExist(s);
    LocksKept(s, s', tid);
  }

  // ----- addToWheel -----

  lemma OwnerIsAlone(s: Store, tid: Tid, t: Ptr)
    requires |s.chains| > 0 && ExclusionOk(s) && tid in s.threads && ExclusiveOf(s.threads[tid].pc) == t
    ensures Unclaimed(s, tid, t, true) && t in s.objs && s.objs[t].added && !InWheel(s, t)
  {
    hide RoleOk;
    forall u | u in s.threads && u != tid
      ensures ExclusiveOf(s.threads[u].pc) != t && RemovingOf(s.threads[u]) != t
    {
      assert Apart(s.threads[tid], s.threads[u]);
    }
    RoleGives(s, s.threads[tid]);
  }

  lemma RoleGives(s: Store, th: Thread)
    requires |s.chains| > 0 && RoleOk(s, th) && ExclusiveOf(th.pc) >= 0
    ensures ExclusiveOf(th.pc) in s.objs && s.objs[ExclusiveOf(th.pc)].added && !InWheel(s, ExclusiveOf(th.pc))
  {}

  lemma LinkRelinks(s: Store, tid: Tid)
    requires Enabled(s, tid, LinkWheel) && WheelsOk(s) && PcOk(s, tid)
    requires var t := s.threads[tid].pc.t; s.objs[t].added && !InWheel(s, t)
    ensures var t, sl := s.threads[tid].pc.t, s.threads[tid].pc.sl;
            var key, s' := Slot(s.objs[t].wheel, sl), Next(s, tid, LinkWheel);
            s' == LinkNode(s, tid, t, sl)
            && Relinked(s, s', tid, t, key, [t] + s.wheels[key]) && NoDuplicates([t] + s.wheels[key])
            && PcOk(s', tid)
            && forall p :: p in s.objs && p != t ==> SameUse(s.threads[tid], s'.threads[tid], p)
  {
    var t := s.threads[tid].pc.t;
    var key := Slot(s.objs[t].wheel, s.threads[tid].pc.sl);
    assert forall k :: k in s.wheels ==> t !in s.wheels[k];
    assert NoDuplicates(s.wheels[key]);
  }

  lemma LinkCount(s: Store, s': Store, tid: Tid, t: Ptr, sl: nat)
    requires |s.chains| > 0 && tid in s.threads && s.threads[tid].pc.WheelLink? && s.threads[tid].pc.t == t
    requires t in s.objs && Slot(s.objs[t].wheel, sl) in s.wheels && s' == LinkNode(s, tid, t, sl)
    requires var key := Slot(s.objs[t].wheel, sl); Relinked(s, s', tid, t, key, [t] + s.wheels[key])
    requires CountOk(s, t) && WheelsOk(s) && !InWheel(s, t)
    ensures CountOk(s', t)
  {
    var key := Slot(s.objs[t].wheel, sl);
    assert IsHolder(s, t, Flight(tid)) && !IsHolder(s, t, Holder.Wheel);
    Handed(s.objs[t], s'.objs[t], Flight(tid), Holder.Wheel);
    RelinkedMembership(s, s', tid, t, key, [t] + s.wheels[key], t);
    hide WheelsOk, Relinked, InMap, InWheel;
    HoldersChange(s, s', tid, t, {Flight(tid)}, {Holder.Wheel});
  }

  lemma LinkWheelKeepsInv(s: Store, tid: Tid)
    requires Inv(s) && Enabled(s, tid, LinkWheel)
    ensures Inv(Next(s, tid, LinkWheel))
  {
    hide PcOk, LocksOk, ChainsOk, WheelsOk, ExclusionOk, CountOk, WheelFieldOk, RoleOk, InWheel,
         NoDuplicates, Next, LinkNode, SameUse, Unclaimed, Relinked;
    var t, sl := s.threads[tid].pc.t, s.threads[tid].pc.sl;
    var s' := Next(s, tid, LinkWheel);
    var key := Slot(s.objs[t].wheel, sl);
    OwnerIsAlone(s, tid, t);
    LinkRelinks(s, tid);
    LinkCount(s, s', tid, t, sl);
    WheelStep(s, s', tid, t, key, [t] + s.wheels[key]);
  }

  // ----- removeFromWheel -----

  lemma NobodyOwnsLinked(s: Store, tid: Tid, t: Ptr)
    requires |s.chains| > 0 && ExclusionOk(s) && InWheel(s, t)
    ensures Unclaimed(s, tid, t, false)
  {
    forall u | u in s.threads
      ensures ExclusiveOf(s.threads[u].pc) != t
    {
      assert RoleOk(s, s.threads[u]);
    }
  }

  /** What `removeFromWheel` finds inside its mutex section, if the timer still names a wheel. */
  lemma UnlinkFinds(s: Store, tid: Tid)
    requires Inv(s) && Enabled(s, tid, UnlinkWheel)
    requires s.objs[s.threads[tid].refs[s.threads[tid].pc.x]].wheel < NO_WHEEL
    ensures var t := s.threads[tid].refs[s.threads[tid].pc.x];
            s.objs[t].wheel == s.threads[tid].pc.w && InWheel(s, t) && s.objs[t].added
  {
    hide LocksOk, ChainsOk, WheelsOk, ExclusionOk, CountOk, WheelFieldOk;
    assert PcOk(s, tid);
  }

  /** The slot list of a linked timer, without it. */
  lemma UnlinkedList(s: Store, t: Ptr)
    requires WheelsOk(s) && InWheel(s, t)
    ensures var key := Slot(s.objs[t].wheel, s.objs[t].slot);
            var q := Cut(s.wheels[key], IndexOf(s.wheels[key], t));
            NoDuplicates(q) && t !in q && key.w < NO_WHEEL
            && (forall p :: p != t ==> (p in q <==> p in s.wheels[key]))
            && (forall k :: k in s.wheels && k != key ==> t !in s.wheels[k])
  {
    var key := Slot(s.objs[t].wheel, s.objs[t].slot);
    CutMembers(s.wheels[key], IndexOf(s.wheels[key], t));
  }

  lemma UnlinkRelinks(s: Store, s': Store, tid: Tid, t: Ptr)
    requires |s.chains| > 0 && tid in s.threads && s.threads[tid].pc.WheelUnlink? && WheelsOk(s)
    requires t in s.objs && s.objs[t].added && InWheel(s, t) && s' == UnlinkNode(s, tid, t, s.objs[t].wheel)
    ensures var key := Slot(s.objs[t].wheel, s.objs[t].slot);
            var q := Cut(s.wheels[key], IndexOf(s.wheels[key], t));
            Relinked(s, s', tid, t, key, q) && NoDuplicates(q) && t !in q
  {
    UnlinkedList(s, t);
    hide WheelsOk, NoDuplicates, Cut, IndexOf;
  }

  /** The section runs as `UnlinkNode`, and the thread leaves it with the wheel's reference. */
  lemma UnlinkRuns(s: Store, tid: Tid, t: Ptr)
    requires Enabled(s, tid, UnlinkWheel) && PcOk(s, tid) && t == s.threads[tid].refs[s.threads[tid].pc.x]
    requires s.objs[t].wheel == s.threads[tid].pc.w < NO_WHEEL
    ensures var s' := Next(s, tid, UnlinkWheel);
            s' == UnlinkNode(s, tid, t, s.objs[t].wheel) && PcOk(s', tid)
            && forall p :: p in s.objs && p != t ==> SameUse(s.threads[tid], s'.threads[tid], p)
  {
    hide InWheel, Cut, IndexOf;
  }

  lemma UnlinkCount(s: Store, s': Store, tid: Tid, t: Ptr)
    requires |s.chains| > 0 && tid in s.threads && s.threads[tid].pc.WheelUnlink?
    requires t in s.objs && InWheel(s, t) && s' == UnlinkNode(s, tid, t, s.objs[t].wheel)
    requires var key := Slot(s.objs[t].wheel, s.objs[t].slot);
             var q := Cut(s.wheels[key], IndexOf(s.wheels[key], t));
             Relinked(s, s', tid, t, key, q) && t !in q
    requires CountOk(s, t) && WheelsOk(s)
    ensures CountOk(s', t)
  {
    var key := Slot(s.objs[t].wheel, s.objs[t].slot);
    assert IsHolder(s, t, Holder.Wheel) && !IsHolder(s, t, Flight(tid));
    Handed(s.objs[t], s'.objs[t], Holder.Wheel, Flight(tid));
    RelinkedMembership(s, s', tid, t, key, Cut(s.wheels[key], IndexOf(s.wheels[key], t)), t);
    hide WheelsOk, Relinked, InMap, InWheel;
    HoldersChange(s, s', tid, t, {Holder.Wheel}, {Flight(tid)});
  }

  lemma UnlinkWinKeepsInv(s: Store, tid: Tid, t: Ptr)
    requires Inv(s) && Enabled(s, tid, UnlinkWheel)
    requires t == s.threads[tid].refs[s.threads[tid].pc.x] && s.objs[t].wheel < NO_WHEEL
    ensures Inv(Next(s, tid, UnlinkWheel))
  {
    hide PcOk, LocksOk, ChainsOk, WheelsOk, ExclusionOk, CountOk, WheelFieldOk, RoleOk,
         NoDuplicates, Next, UnlinkNode, SameUse, Unclaimed, Relinked;
    UnlinkFinds(s, tid);
    var s' := Next(s, tid, UnlinkWheel);
    var key := Slot(s.objs[t].wheel, s.objs[t].slot);
    var q := Cut(s.wheels[key], IndexOf(s.wheels[key], t));
    NobodyOwnsLinked(s, tid, t);
    UnlinkRuns(s, tid, t);
    UnlinkRelinks(s, s', tid, t);
    UnlinkCount(s, s', tid, t);
    WheelStep(s, s', tid, t, key, q);
  }

  lemma UnlinkLossPc(s: Store, tid: Tid)
    requires Inv(s) && Enabled(s, tid, UnlinkWheel)
    requires s.objs[s.threads[tid].refs[s.threads[tid].pc.x]].wheel >= NO_WHEEL
    ensures PcOk(Next(s, tid, UnlinkWheel), tid)
  {
    hide LocksOk, ChainsOk, WheelsOk, ExclusionOk, CountOk, WheelFieldOk;
    assert PcOk(s, tid);
  }

  lemma UnlinkWheelKeepsInv(s: Store, tid: Tid)
    requires Inv(s) && Enabled(s, tid, UnlinkWheel)
    ensures Inv(Next(s, tid, UnlinkWheel))
  {
    hide PcOk, LocksOk, ChainsOk, WheelsOk, ExclusionOk, CountOk, WheelFieldOk, RoleOk, UnlinkNode;
    var t := s.threads[tid].refs[s.threads[tid].pc.x];
    if s.objs[t].wheel < NO_WHEEL {
      UnlinkWinKeepsInv(s, tid, t);
    } else {
      UnlinkLossPc(s, tid);
      FlightsExist(s);
      LocksKept(s, Next(s, tid, UnlinkWheel), tid);
      PcOnlyStep(s, Next(s, tid, UnlinkWheel), tid);
    }
  }
}
