/** The locked hash chains are a finite map from ids to timers, in every interleaving. */
module StoreMap {
  import opened Sequences
  import opened StoreModel
  import opened StoreInvariant
  import opened StoreSteps
  import opened StoreChainSteps
  import opened StoreRuns

  /** `id` is mapped to `t`: a node with that id is in the chain of that id. */
  predicate Maps(s: Store, id: nat, t: Ptr)
    requires |s.chains| > 0
  {
    t in s.objs && InMap(s, t) && s.objs[t].id == id
  }

  /** Each id occurs at most once over all chains. */
  lemma MapIsFunctional(s: Store, id: nat, t: Ptr, u: Ptr)
    requires Inv(s) && Maps(s, id, t) && Maps(s, id, u)
    ensures t == u
  {
    hide PcOk, LocksOk, WheelsOk, ExclusionOk, CountOk, WheelFieldOk, InMap;
    HeldIsLive(s, t, Map);
    HeldIsLive(s, u, Map);
    DistinctIds(s, t, u);
  }

  lemma DistinctIds(s: Store, t: Ptr, u: Ptr)
    requires |s.chains| > 0 && ChainsOk(s) && t in s.objs && u in s.objs
    requires s.objs[t].life == Live && s.objs[u].life == Live && s.objs[t].id == s.objs[u].id
    ensures t == u
  {}

  predicate Entry(m: map<nat, Ptr>, id: nat, t: Ptr) {
    id in m && m[id] == t
  }

  /** The contents of the chains as a map from id to timer. */
  ghost function View(s: Store): (m: map<nat, Ptr>)
    requires Inv(s)
    ensures forall id, t :: Entry(m, id, t) <==> Maps(s, id, t)
    ensures forall id :: id in m ==> exists t :: Maps(s, id, t)
  {
    var ids := set t | t in s.objs && InMap(s, t) :: s.objs[t].id;
    assert forall id :: id in ids ==> exists t :: Maps(s, id, t) by {
      forall id | id in ids
        ensures exists t :: Maps(s, id, t)
      {
        var t :| t in s.objs && InMap(s, t) && s.objs[t].id == id;
        assert Maps(s, id, t);
      }
    }
    Unique(s);
    map id | id in ids :: Holding(s, id)
  }

  ghost function Holding(s: Store, id: nat): (t: Ptr)
    requires |s.chains| > 0 && exists t :: Maps(s, id, t)
    ensures Maps(s, id, t)
  {
    var t :| Maps(s, id, t); t
  }

  lemma Unique(s: Store)
    requires Inv(s)
    ensures forall id, t, u :: Maps(s, id, t) && Maps(s, id, u) ==> t == u
  {
    forall id, t, u | Maps(s, id, t) && Maps(s, id, u)
      ensures t == u
    {
      MapIsFunctional(s, id, t, u);
    }
  }

  // ----- what each step does to the map -----

  /** Equal membership is an equal view. */
  lemma ViewIs(s: Store, m: map<nat, Ptr>)
    requires |s.chains| > 0 && Inv(s)
    requires forall id, t :: Entry(m, id, t) <==> Maps(s, id, t)
    ensures View(s) == m
  {
    SameEntries(View(s), m);
  }

  lemma SameEntries(v: map<nat, Ptr>, m: map<nat, Ptr>)
    requires forall id, t :: Entry(v, id, t) <==> Entry(m, id, t)
    ensures v == m
  {
    assert forall id :: id in v ==> Entry(v, id, v[id]);
    assert forall id :: id in m ==> Entry(m, id, m[id]);
  }

  /** The node that `addTimer` publishes was not mapped, nor was its id. */
  lemma PushedIsNew(s: Store, tid: Tid)
    requires Inv(s) && Enabled(s, tid, Push)
    ensures var t := s.threads[tid].pc.task.t;
            s.objs[t].id !in View(s)
  {
    hide View, LocksOk, WheelsOk, PcOk, ExclusionOk, CountOk, WheelFieldOk, ChainsOk, InMap;
    var t := s.threads[tid].pc.task.t;
    var id := s.objs[t].id;
    PushFacts(s, tid);
    HeldIsLive(s, t, Flight(tid));
    if id in View(s) {
      var u := View(s)[id];
      assert Maps(s, id, u);
      HeldIsLive(s, u, Map);
      DistinctIds(s, t, u);
    }
  }

  lemma PushMaps(s: Store, s': Store, tid: Tid, t: Ptr, h: nat, id: nat, u: Ptr)
    requires h < |s.chains| && Rechained(s, s', tid, t, h, [t] + s.chains[h])
    ensures Maps(s', id, u) <==> Maps(s, id, u) || (id == s.objs[t].id && u == t)
  {
    RechainedMembership(s, s', tid, t, h, [t] + s.chains[h], u);
    hide InMap;
  }

  /** `addTimer` adds exactly its id and timer to the map. */
  lemma AddAddsOneEntry(s: Store, tid: Tid)
    requires Inv(s) && Enabled(s, tid, Push)
    ensures var t := s.threads[tid].pc.task.t;
            Inv(Next(s, tid, Push)) && s.objs[t].id !in View(s)
            && View(Next(s, tid, Push)) == View(s)[s.objs[t].id := t]
  {
    hide PcOk, LocksOk, ChainsOk, WheelsOk, ExclusionOk, CountOk, WheelFieldOk, RoleOk, InMap, NoDuplicates,
         Next, PushNode, SameUse, View, Maps;
    var t, s' := s.threads[tid].pc.task.t, Next(s, tid, Push);
    var h := ChainOf(s, s.objs[t].id);
    PushKeepsInv(s, tid);
    PushFacts(s, tid);
    PushedIsNew(s, tid);
    PushRuns(s, tid);
    PushRechains(s, s', tid, t, h);
    var m := View(s)[s.objs[t].id := t];
    forall id, u
      ensures Entry(m, id, u) <==> Maps(s', id, u)
    {
      ViewGives(s, id, u);
      PushMaps(s, s', tid, t, h, id, u);
    }
    ViewIs(s', m);
  }

  lemma ViewGives(s: Store, id: nat, t: Ptr)
    requires Inv(s)
    ensures Entry(View(s), id, t) <==> Maps(s, id, t)
  {}

  lemma CutMaps(s: Store, s': Store, tid: Tid, t: Ptr, h: nat, q: seq<Ptr>, id: nat, u: Ptr)
    requires Rechained(s, s', tid, t, h, q) && t !in q
    ensures Maps(s', id, u) <==> Maps(s, id, u) && u != t
  {
    RechainedMembership(s, s', tid, t, h, q, u);
    hide InMap;
  }

  lemma HitNodeIsMapped(s: Store, tid: Tid)
    requires Inv(s) && Enabled(s, tid, Hit)
    ensures Maps(s, TaskId(s, s.threads[tid].pc.task), NodeAt(s, s.threads[tid].pc))
  {
    hide Inv;
    NodeIsLive(s, tid);
  }

  /** `removeTimer` deletes exactly the entry of its id. */
  lemma RemoveDeletesOneEntry(s: Store, tid: Tid)
    requires Inv(s) && Enabled(s, tid, Hit) && s.threads[tid].pc.task.Remove?
    ensures var id := s.threads[tid].pc.task.id;
            Inv(Next(s, tid, Hit)) && id in View(s) && View(s)[id] == NodeAt(s, s.threads[tid].pc)
            && View(Next(s, tid, Hit)) == View(s) - {id}
  {
    hide PcOk, LocksOk, ChainsOk, WheelsOk, ExclusionOk, CountOk, WheelFieldOk, RoleOk, InMap, NoDuplicates,
         Next, HitNode, SameUse, View, Maps;
    var pc, s' := s.threads[tid].pc, Next(s, tid, Hit);
    var t, h := NodeAt(s, pc), TaskChain(s, pc.task);
    RemoveHitKeepsInv(s, tid);
    RemoveHitRuns(s, tid);
    RemoveHitRechains(s, s', tid, t, h, pc.k);
    HitNodeIsMapped(s, tid);
    var m := View(s) - {pc.task.id};
    forall id, u
      ensures Entry(m, id, u) <==> Maps(s', id, u)
    {
      ViewGives(s, id, u);
      ViewGives(s, pc.task.id, t);
      CutMaps(s, s', tid, t, h, Cut(s.chains[h], pc.k), id, u);
      if id != pc.task.id && u == t { MapsId(s, id, pc.task.id, t); }
    }
    ViewIs(s', m);
  }

  lemma MapsId(s: Store, id: nat, id': nat, t: Ptr)
    requires |s.chains| > 0 && Maps(s, id', t) && id != id'
    ensures !Maps(s, id, t)
  {}

  /** Only those two steps change the map. */
  lemma OtherStepsKeepMap(s: Store, tid: Tid, a: Action)
    requires Inv(s) && Enabled(s, tid, a) && StepIsSafe(s, tid, a)
    requires !a.Push? && !(a.Hit? && s.threads[tid].pc.task.Remove?)
    ensures Inv(Next(s, tid, a)) && View(Next(s, tid, a)) == View(s)
  {
    assert |s.chains| > 0 && ChainsOk(s);
    hide Inv, ChainsOk, StepIsSafe, View, Maps, Enabled, Next, InMap;
    StepKeepsInv(s, tid, a);
    forall id, u
      ensures Entry(View(s), id, u) <==> Maps(Next(s, tid, a), id, u)
    {
      ViewGives(s, id, u);
      OtherStepsMap(s, tid, a, id, u);
    }
    ViewIs(Next(s, tid, a), View(s));
  }

  lemma ChainsAreKept(s: Store, tid: Tid, a: Action)
    requires Enabled(s, tid, a)
    requires !a.Push? && !(a.Hit? && s.threads[tid].pc.task.Remove?)
    ensures Next(s, tid, a).chains == s.chains
  {}

  lemma IdIsKept(s: Store, tid: Tid, a: Action, t: Ptr)
    requires Enabled(s, tid, a)
    ensures t in s.objs ==> t in Next(s, tid, a).objs && Next(s, tid, a).objs[t].id == s.objs[t].id
  {}

  lemma UnknownIsInNoChain(s: Store, u: Ptr)
    requires |s.chains| > 0 && ChainsOk(s) && u !in s.objs
    ensures forall h :: 0 <= h < |s.chains| ==> u !in s.chains[h]
  {}

  lemma OtherStepsMap(s: Store, tid: Tid, a: Action, id: nat, u: Ptr)
    requires |s.chains| > 0 && ChainsOk(s) && Enabled(s, tid, a)
    requires !a.Push? && !(a.Hit? && s.threads[tid].pc.task.Remove?)
    ensures Maps(Next(s, tid, a), id, u) <==> Maps(s, id, u)
  {
    ChainsAreKept(s, tid, a);
    IdIsKept(s, tid, a, u);
    if u !in s.objs { UnknownIsInNoChain(s, u); }
    hide Next, Enabled, ChainsOk;
  }

  // ----- what lookups return -----

  lemma PassedAllMeansAbsent(s: Store, id: nat)
    requires |s.chains| > 0 && Passed(s, id, |s.chains[ChainOf(s, id)]|)
    ensures forall t :: !Maps(s, id, t)
  {
    var q := s.chains[ChainOf(s, id)];
    forall t
      ensures !Maps(s, id, t)
    {
      if t in s.objs && s.objs[t].id == id { assert forall j :: 0 <= j < |q| ==> q[j] != t; }
    }
  }

  lemma WalkerPassedAll(s: Store, tid: Tid)
    requires Inv(s) && Enabled(s, tid, EndOfChain)
    ensures var id := s.threads[tid].pc.task.id; Passed(s, id, |s.chains[ChainOf(s, id)]|)
  {
    hide LocksOk, ChainsOk, WheelsOk, ExclusionOk, CountOk, WheelFieldOk;
    assert PcOk(s, tid);
  }

  /** A walk that reaches the end of the chain has shown the id to be unmapped. */
  lemma WalkToEndMeansAbsent(s: Store, tid: Tid)
    requires Inv(s) && Enabled(s, tid, EndOfChain)
    ensures s.threads[tid].pc.task.id !in View(s)
  {
    var id := s.threads[tid].pc.task.id;
    WalkerPassedAll(s, tid);
    PassedAllMeansAbsent(s, id);
  }

  /**
   * `findTimer` returns a timer exactly if its id is mapped at the moment the walk ends,
   * it is the mapped one, and the caller now holds a reference to it.
   */
  lemma FindReturnsTheMappedTimer(s: Store, tid: Tid, a: Action)
    requires Inv(s) && Enabled(s, tid, a) && (a.Hit? || a.EndOfChain?) && s.threads[tid].pc.task.Find?
    ensures var task, refs' := s.threads[tid].pc.task, Next(s, tid, a).threads[tid].refs;
            && (a.Hit? <==> task.id in View(s))
            && (task.x in refs' <==> task.id in View(s))
            && (task.id in View(s) ==> refs'[task.x] == View(s)[task.id])
  {
    hide Inv, View, Maps;
    NotHeldYet(s, tid);
    if a.Hit? {
      HitNodeIsMapped(s, tid);
      ViewGives(s, s.threads[tid].pc.task.id, NodeAt(s, s.threads[tid].pc));
    } else {
      WalkToEndMeansAbsent(s, tid);
    }
  }

  lemma NotHeldYet(s: Store, tid: Tid)
    requires Inv(s) && tid in s.threads && s.threads[tid].pc.Walk? && s.threads[tid].pc.task.Find?
    ensures s.threads[tid].pc.task.x !in s.threads[tid].refs
  {
    hide LocksOk, ChainsOk, WheelsOk, ExclusionOk, CountOk, WheelFieldOk;
    assert PcOk(s, tid);
  }

  /** `removeTimer` finds its node exactly if the id is mapped. */
  lemma RemoveFindsExactlyMapped(s: Store, tid: Tid, a: Action)
    requires Inv(s) && Enabled(s, tid, a) && (a.Hit? || a.EndOfChain?) && s.threads[tid].pc.task.Remove?
    ensures a.Hit? <==> s.threads[tid].pc.task.id in View(s)
  {
    hide Inv, View, Maps;
    if a.Hit? {
      HitNodeIsMapped(s, tid);
      ViewGives(s, s.threads[tid].pc.task.id, NodeAt(s, s.threads[tid].pc));
    } else {
      WalkToEndMeansAbsent(s, tid);
    }
  }
}
