/** The steps that change a hash chain: publishing a node and unlinking one. */
module StoreChainSteps {
  import opened Sequences
  import opened StoreModel
  import opened StoreInvariant
  import opened StoreSteps

  /** Inside chain `h`, thread `tid` replaced it by `q`, which differs in `t` only. */
  ghost predicate Rechained(s: Store, s': Store, tid: Tid, t: Ptr, h: nat, q: seq<Ptr>) {
    && |s.chains| > 0 && OthersKept(s, s', tid) && t in s.objs && t in s'.objs && h == ChainOf(s, s.objs[t].id)
    && s'.chains == s.chains[h := q] && s'.lockedBy == s.lockedBy && s'.wheels == s.wheels
    && s'.objs == s.objs[t := s.objs[t].(holders := s'.objs[t].holders)]
    && s'.threads[tid].refs == s.threads[tid].refs
    && Inside(s, s.threads[tid].pc) == h && Inside(s', s'.threads[tid].pc) == h
    && (forall p :: p != t ==> (p in q <==> p in s.chains[h]))
    && ExclusiveOf(s.threads[tid].pc) == -1
    && ExclusiveOf(s'.threads[tid].pc) == -1 && AddingOf(s'.threads[tid].pc) == -1
    && RemovingOf(s'.threads[tid]) == -1
  }

  lemma RechainedMembership(s: Store, s': Store, tid: Tid, t: Ptr, h: nat, q: seq<Ptr>, p: Ptr)
    requires Rechained(s, s', tid, t, h, q)
    ensures p != t ==> InMap(s', p) == InMap(s, p)
    ensures InWheel(s', p) == InWheel(s, p)
    ensures InMap(s', t) <==> t in q
  {}

  lemma RechainedChains(s: Store, s': Store, tid: Tid, t: Ptr, h: nat, q: seq<Ptr>)
    requires Rechained(s, s', tid, t, h, q) && ChainsOk(s) && s.objs[t].added && NoDuplicates(q)
    ensures ChainsOk(s')
  {
    hide NoDuplicates;
    forall g, p | 0 <= g < |s'.chains| && p in s'.chains[g]
      ensures p in s'.objs && ChainOf(s', s'.objs[p].id) == g && s'.objs[p].added
    {
      if p != t { assert p in s.chains[g]; }
      if p == t && g != h { assert p in s.chains[g]; }
    }
  }

  /** Nobody else is inside the chain, so nobody else loses what it relies on. */
  lemma RechainedThread(s: Store, s': Store, tid: Tid, t: Ptr, h: nat, q: seq<Ptr>, u: Tid)
    requires Rechained(s, s', tid, t, h, q) && LocksOk(s) && u in s.threads && u != tid
    requires PcOk(s, u) && RoleOk(s, s.threads[u]) && AddingOf(s.threads[u].pc) != t
    ensures PcOk(s', u) && RoleOk(s', s'.threads[u])
  {
    var th := s.threads[u];
    assert s.lockedBy[h] == tid;
    assert Inside(s, th.pc) != h;
    hide LocksOk, Rechained;
    RechainedFrame(s, s', tid, t, h, q, u);
  }

  lemma RechainedFrame(s: Store, s': Store, tid: Tid, t: Ptr, h: nat, q: seq<Ptr>, u: Tid)
    requires Rechained(s, s', tid, t, h, q) && u in s.threads && u != tid
    requires PcOk(s, u) && RoleOk(s, s.threads[u]) && AddingOf(s.threads[u].pc) != t
    requires Inside(s, s.threads[u].pc) != h
    ensures PcOk(s', u) && RoleOk(s', s'.threads[u])
  {
    var th := s.threads[u];
    RechainedMembership(s, s', tid, t, h, q, if ExclusiveOf(th.pc) >= 0 then ExclusiveOf(th.pc) else t);
    RechainedMembership(s, s', tid, t, h, q, if AddingOf(th.pc) >= 0 then AddingOf(th.pc) else t);
    RechainedMembership(s, s', tid, t, h, q, if RemovingOf(th) >= 0 then RemovingOf(th) else t);
    hide InMap, InWheel;
    PcFrame(s, s', u);
    RoleFrame(s, s', th, th);
  }

  lemma RechainedThreads(s: Store, s': Store, tid: Tid, t: Ptr, h: nat, q: seq<Ptr>)
    requires Inv(s) && Rechained(s, s', tid, t, h, q) && PcOk(s', tid)
    requires forall u :: u in s.threads && u != tid ==> AddingOf(s.threads[u].pc) != t
    ensures forall u :: u in s'.threads ==> PcOk(s', u) && RoleOk(s', s'.threads[u])
  {
    hide PcOk, LocksOk, ChainsOk, WheelsOk, CountOk, WheelFieldOk, RoleOk;
    forall u | u in s'.threads
      ensures PcOk(s', u) && RoleOk(s', s'.threads[u])
    {
      if u != tid {
        RechainedThread(s, s', tid, t, h, q, u);
      } else {
        NoRole(s', s'.threads[u]);
      }
    }
  }

  lemma NoRole(s: Store, th: Thread)
    requires |s.chains| > 0 && ExclusiveOf(th.pc) == -1 && AddingOf(th.pc) == -1
    ensures RoleOk(s, th)
  {}

  lemma RechainedCount(s: Store, s': Store, tid: Tid, t: Ptr, h: nat, q: seq<Ptr>, p: Ptr)
    requires Rechained(s, s', tid, t, h, q) && p in s.objs && p != t
    requires CountOk(s, p) && SameUse(s.threads[tid], s'.threads[tid], p)
    ensures CountOk(s', p)
  {
    RechainedMembership(s, s', tid, t, h, q, p);
    CountFrame(s, s', tid, p);
  }

  lemma RechainedField(s: Store, s': Store, tid: Tid, t: Ptr, h: nat, q: seq<Ptr>, p: Ptr)
    requires Rechained(s, s', tid, t, h, q) && p in s.objs && WheelFieldOk(s, p)
    ensures WheelFieldOk(s', p)
  {
    RechainedMembership(s, s', tid, t, h, q, p);
    FieldFrame(s, s', tid, p);
  }

  lemma ChainStep(s: Store, s': Store, tid: Tid, t: Ptr, h: nat, q: seq<Ptr>)
    requires Inv(s) && Rechained(s, s', tid, t, h, q) && PcOk(s', tid) && CountOk(s', t)
    requires s.objs[t].added && NoDuplicates(q)
    requires forall p :: p in s.objs && p != t ==> SameUse(s.threads[tid], s'.threads[tid], p)
    requires forall u :: u in s.threads && u != tid ==> AddingOf(s.threads[u].pc) != t
    ensures Inv(s')
  {
    hide PcOk, LocksOk, ChainsOk, WheelsOk, ExclusionOk, CountOk, WheelFieldOk, RoleOk;
    RechainedChains(s, s', tid, t, h, q);
    RechainedThreads(s, s', tid, t, h, q);
    forall p | p in s'.objs
      ensures CountOk(s', p) && WheelFieldOk(s', p)
    {
      if p != t { RechainedCount(s, s', tid, t, h, q, p); }
      RechainedField(s, s', tid, t, h, q, p);
    }
    PairsFrame(s, s', tid);
    SameWheels(s, s');
    FlightsExist(s);
    LocksKept(s, s', tid);
  }

  /** One holder gives its reference to another: the count stays right. */
  lemma Handed(o: Obj, o': Obj, from: Holder, to: Holder)
    requires from in o.holders && to !in o.holders && o'.holders == o.holders - {from} + {to}
    ensures |o'.holders| == |o.holders| && o'.holders != {}
  {
    assert to in o'.holders;
    assert |o.holders - {from}| == |o.holders| - 1;
  }

  // ----- addTimer publishes a node -----

  lemma PushFacts(s: Store, tid: Tid)
    requires Inv(s) && Enabled(s, tid, Push)
    ensures var t := s.threads[tid].pc.task.t;
            !InMap(s, t) && s.objs[t].added && forall u :: u in s.threads && u != tid ==> AddingOf(s.threads[u].pc) != t
  {
    hide PcOk, LocksOk, ChainsOk, WheelsOk, CountOk, WheelFieldOk;
    assert RoleOk(s, s.threads[tid]);
    forall u | u in s.threads && u != tid
      ensures AddingOf(s.threads[u].pc) != s.threads[tid].pc.task.t
    {
      assert Apart(s.threads[tid], s.threads[u]);
    }
  }

  lemma PushRechains(s: Store, s': Store, tid: Tid, t: Ptr, h: nat)
    requires |s.chains| > 0 && tid in s.threads && s.threads[tid].pc.Walk? && s.threads[tid].pc.task == Add(t)
    requires t in s.objs && h == ChainOf(s, s.objs[t].id) && s' == PushNode(s, tid, t)
    requires ChainsOk(s) && !InMap(s, t)
    ensures Rechained(s, s', tid, t, h, [t] + s.chains[h]) && NoDuplicates([t] + s.chains[h])
  {
    assert NoDuplicates(s.chains[h]);
    assert t !in s.chains[h];
    hide ChainsOk;
  }

  lemma PushRuns(s: Store, tid: Tid)
    requires Enabled(s, tid, Push) && PcOk(s, tid)
    ensures var t, s' := s.threads[tid].pc.task.t, Next(s, tid, Push);
            s' == PushNode(s, tid, t) && PcOk(s', tid)
            && forall p :: p in s.objs && p != t ==> SameUse(s.threads[tid], s'.threads[tid], p)
  {}

  lemma PushCount(s: Store, s': Store, tid: Tid, t: Ptr, h: nat)
    requires |s.chains| > 0 && tid in s.threads && s.threads[tid].pc.Walk? && s.threads[tid].pc.task == Add(t) && t in s.objs
    requires s' == PushNode(s, tid, t) && h == ChainOf(s, s.objs[t].id)
    requires Rechained(s, s', tid, t, h, [t] + s.chains[h])
    requires CountOk(s, t) && !InMap(s, t)
    ensures CountOk(s', t)
  {
    var o := s.objs[t];
    assert IsHolder(s, t, Flight(tid)) && !IsHolder(s, t, Map);
    Handed(o, s'.objs[t], Flight(tid), Map);
    RechainedMembership(s, s', tid, t, h, [t] + s.chains[h], t);
    HoldersChange(s, s', tid, t, {Flight(tid)}, {Map});
  }

  lemma PushKeepsInv(s: Store, tid: Tid)
    requires Inv(s) && Enabled(s, tid, Push)
    ensures Inv(Next(s, tid, Push))
  {
    hide PcOk, LocksOk, ChainsOk, WheelsOk, ExclusionOk, CountOk, WheelFieldOk, RoleOk, InMap, NoDuplicates, Next, PushNode, SameUse;
    var t := s.threads[tid].pc.task.t;
    PushFacts(s, tid);
    PushRuns(s, tid);
    var s' := Next(s, tid, Push);
    var h := ChainOf(s, s.objs[t].id);
    PushRechains(s, s', tid, t, h);
    PushCount(s, s', tid, t, h);
    hide Rechained;
    ChainStep(s, s', tid, t, h, [t] + s.chains[h]);
  }

  // ----- removeTimer unlinks a node -----

  lemma CutMembers(q: seq<Ptr>, k: nat)
    requires k < |q| && NoDuplicates(q)
    ensures NoDuplicates(Cut(q, k)) && q[k] !in Cut(q, k)
    ensures forall p :: p != q[k] ==> (p in Cut(q, k) <==> p in q)
  {
    var r := Cut(q, k);
    forall p | p in q && p != q[k]
      ensures p in r
    {
      var j :| 0 <= j < |q| && q[j] == p;
      assert r[if j < k then j else j - 1] == p;
    }
  }

  lemma RemoveHitRechains(s: Store, s': Store, tid: Tid, t: Ptr, h: nat, k: nat)
    requires |s.chains| > 0 && tid in s.threads && s.threads[tid].pc.Walk? && s.threads[tid].pc.task.Remove?
    requires h == TaskChain(s, s.threads[tid].pc.task)
    requires k == s.threads[tid].pc.k && AtNode(s, s.threads[tid].pc) && t == NodeAt(s, s.threads[tid].pc)
    requires s' == HitNode(s, tid) && ChainsOk(s)
    ensures InMap(s, t) && s.objs[t].added && Rechained(s, s', tid, t, h, Cut(s.chains[h], k))
    ensures NoDuplicates(Cut(s.chains[h], k)) && t !in Cut(s.chains[h], k)
  {
    assert t in s.chains[h];
    CutMembers(s.chains[h], k);
    hide ChainsOk, NoDuplicates;
  }

  lemma RemoveHitRuns(s: Store, tid: Tid)
    requires Enabled(s, tid, Hit) && PcOk(s, tid) && s.threads[tid].pc.task.Remove?
    ensures var t, s' := NodeAt(s, s.threads[tid].pc), Next(s, tid, Hit);
            s' == HitNode(s, tid) && PcOk(s', tid)
            && forall p :: p in s.objs && p != t ==> SameUse(s.threads[tid], s'.threads[tid], p)
  {}

  /** Nobody is adding a timer that is in the map. */
  lemma MappedIsNotAdding(s: Store, t: Ptr)
    requires |s.chains| > 0 && ExclusionOk(s) && InMap(s, t)
    ensures forall u :: u in s.threads ==> AddingOf(s.threads[u].pc) != t
  {
    forall u | u in s.threads
      ensures AddingOf(s.threads[u].pc) != t
    {
      assert RoleOk(s, s.threads[u]);
    }
  }

  /** The reference of the map is now the one in flight. */
  lemma RemoveHitCount(s: Store, s': Store, tid: Tid, t: Ptr, h: nat, q: seq<Ptr>)
    requires Rechained(s, s', tid, t, h, q) && t !in q && CountOk(s, t) && InMap(s, t)
    requires s'.objs[t].holders == s.objs[t].holders - {Map} + {Flight(tid)}
    requires FlightOf(s.threads[tid].pc) != t && FlightOf(s'.threads[tid].pc) == t
    ensures CountOk(s', t)
  {
    assert IsHolder(s, t, Map) && !IsHolder(s, t, Flight(tid));
    Handed(s.objs[t], s'.objs[t], Map, Flight(tid));
    RechainedMembership(s, s', tid, t, h, q, t);
    hide InMap, InWheel, FlightOf;
    HoldersChange(s, s', tid, t, {Map}, {Flight(tid)});
  }

  lemma RemoveHitHands(s: Store, tid: Tid)
    requires |s.chains| > 0 && tid in s.threads && AtNode(s, s.threads[tid].pc) && s.threads[tid].pc.task.Remove?
    ensures var t, s' := NodeAt(s, s.threads[tid].pc), HitNode(s, tid);
            t in s'.objs && s'.objs[t].holders == s.objs[t].holders - {Map} + {Flight(tid)}
            && FlightOf(s.threads[tid].pc) == -1 && tid in s'.threads && FlightOf(s'.threads[tid].pc) == t
  {
    hide Cut;
  }

  lemma RemoveHitKeepsInv(s: Store, tid: Tid)
    requires Inv(s) && Enabled(s, tid, Hit) && s.threads[tid].pc.task.Remove?
    ensures Inv(Next(s, tid, Hit))
  {
    hide PcOk, LocksOk, ChainsOk, WheelsOk, ExclusionOk, CountOk, WheelFieldOk, RoleOk, InMap, NoDuplicates, Next, HitNode, SameUse;
    RemoveHitRuns(s, tid);
    var pc := s.threads[tid].pc;
    var t, h := NodeAt(s, pc), TaskChain(s, pc.task);
    var s' := Next(s, tid, Hit);
    RemoveHitRechains(s, s', tid, t, h, pc.k);
    MappedIsNotAdding(s, t);
    RemoveHitHands(s, tid);
    RemoveHitCount(s, s', tid, t, h, Cut(s.chains[h], pc.k));
    hide Rechained;
    ChainStep(s, s', tid, t, h, Cut(s.chains[h], pc.k));
  }
}
