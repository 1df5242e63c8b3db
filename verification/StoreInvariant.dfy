/** The inductive invariant of the timer store; `StoreRuns` shows that every step keeps it. */
module StoreInvariant {
  import opened Sequences
  import opened StoreModel

  /** What a program counter says about the state, thread by thread. */
  ghost predicate PcOk(s: Store, tid: Tid)
    requires |s.chains| > 0 && tid in s.threads
  {
    var th := s.threads[tid];
    && (forall x :: x in th.refs ==> th.refs[x] in s.objs)
    && (FlightOf(th.pc) >= 0 ==> FlightOf(th.pc) in s.objs)
    && match th.pc
       case Lock(Find(_, x)) => x !in th.refs
       case Walk(Add(t), k) => k == 0
       case Walk(Find(id, x), k) => x !in th.refs && Passed(s, id, k)
       case Walk(Remove(id), k) => Passed(s, id, k)
       case RemDec(_, h) => h < |s.chains|
       case Unlock(h) => h < |s.chains|
       case WheelSet(t, w, sl) => s.objs[t].wheel == NO_WHEEL && w < NO_WHEEL && Slot(w, sl) in s.wheels
       case WheelLink(t, sl) => s.objs[t].wheel < NO_WHEEL && Slot(s.objs[t].wheel, sl) in s.wheels
       case WheelRead(x) =>
         x in th.refs && s.objs[th.refs[x]].added
         && (s.objs[th.refs[x]].wheel == NO_WHEEL || InWheel(s, th.refs[x]))
       case WheelUnlink(x, w) =>
         x in th.refs && s.objs[th.refs[x]].added
         && (s.objs[th.refs[x]].wheel == NO_WHEEL
             || (s.objs[th.refs[x]].wheel == w && InWheel(s, th.refs[x])))
       case Failed => false
       case OutOfBounds => false
       case _ => true
  }

  /** The first `k` nodes of the chain of `id` exist and have other ids. */
  ghost predicate Passed(s: Store, id: nat, k: nat)
    requires |s.chains| > 0
  {
    var q := s.chains[ChainOf(s, id)];
    k <= |q| && forall j :: 0 <= j < k ==> q[j] in s.objs && s.objs[q[j]].id != id
  }

  /** A chain lock holds the thread inside, or 0. */
  ghost predicate LocksOk(s: Store)
    requires |s.chains| > 0
  {
    && |s.lockedBy| == |s.chains|
    && 0 !in s.threads
    && (forall tid, h :: tid in s.threads && 0 <= h < |s.chains| ==>
          (s.lockedBy[h] == tid <==> Inside(s, s.threads[tid].pc) == h))
    && (forall h :: 0 <= h < |s.chains| ==> s.lockedBy[h] == 0 || s.lockedBy[h] in s.threads)
  }

  /** Every node is in the chain of its id, once; ids of existing timers differ. */
  ghost predicate ChainsOk(s: Store)
    requires |s.chains| > 0
  {
    && (forall h, t :: 0 <= h < |s.chains| && t in s.chains[h] ==>
          t in s.objs && ChainOf(s, s.objs[t].id) == h && s.objs[t].added)
    && (forall h :: 0 <= h < |s.chains| ==> NoDuplicates(s.chains[h]))
    && (forall p, q :: p in s.objs && q in s.objs && p != q
          && !s.objs[p].life.Freed? && !s.objs[q].life.Freed?
          ==> s.objs[p].id != s.objs[q].id)
    && (forall p :: p in s.objs ==> s.objs[p].id != 0)
  }

  /** Every wheel list holds the timers whose fields name it, once. */
  ghost predicate WheelsOk(s: Store) {
    && (forall key, t :: key in s.wheels && t in s.wheels[key] ==>
          t in s.objs && Slot(s.objs[t].wheel, s.objs[t].slot) == key && s.objs[t].added)
    && (forall key :: key in s.wheels ==> key.w < NO_WHEEL && NoDuplicates(s.wheels[key]))
    && (forall t :: t in s.objs ==> s.objs[t].wheel <= NO_WHEEL)
  }

  /** Some thread owns the wheel fields of `t`. */
  ghost predicate Owned(s: Store, t: Ptr) {
    exists tid :: tid in s.threads && ExclusiveOf(s.threads[tid].pc) == t
  }

  /** A timer names a wheel only while it is in it, or while its one adder is at work. */
  ghost predicate WheelFieldOk(s: Store, t: Ptr)
    requires t in s.objs
  {
    s.objs[t].added && s.objs[t].wheel < NO_WHEEL ==> InWheel(s, t) || Owned(s, t)
  }

  /** What a thread is adding or owns is not in the map, or not in a wheel, yet. */
  ghost predicate RoleOk(s: Store, th: Thread)
    requires |s.chains| > 0
  {
    var e, a := ExclusiveOf(th.pc), AddingOf(th.pc);
    && (e >= 0 ==> e in s.objs && s.objs[e].added && !InWheel(s, e))
    && (a >= 0 ==> a in s.objs && s.objs[a].added && !InMap(s, a))
  }

  /** Two threads do not add the same timer, nor work on its wheel fields when one owns them. */
  ghost predicate Apart(th: Thread, u: Thread) {
    var e, a := ExclusiveOf(th.pc), AddingOf(th.pc);
    && (e >= 0 ==> ExclusiveOf(u.pc) != e && RemovingOf(u) != e)
    && (a >= 0 ==> AddingOf(u.pc) != a)
  }

  ghost predicate ExclusionOk(s: Store)
    requires |s.chains| > 0
  {
    && (forall tid :: tid in s.threads ==> RoleOk(s, s.threads[tid]))
    && (forall tid, u :: tid in s.threads && u in s.threads && tid != u ==> Apart(s.threads[tid], s.threads[u]))
  }

  /**
   * Reference counts: the references recorded for a timer are exactly those of the map,
   * the wheel, operations under way and local variables; the 8-bit counter is their
   * number; and a timer is live exactly while there is one.
   */
  ghost predicate CountOk(s: Store, t: Ptr)
    requires |s.chains| > 0 && t in s.objs
  {
    var o := s.objs[t];
    && (forall h :: h in o.holders <==> IsHolder(s, t, h))
    && o.refCount == |o.holders| % 256
    && (o.life == Live <==> o.holders != {})
    && (o.life.Fresh? ==> !o.added)
    && o.wins + (if InWheel(s, t) then 1 else 0) == o.links
  }

  ghost predicate Inv(s: Store) {
    && |s.chains| > 0
    && (forall tid :: tid in s.threads ==> PcOk(s, tid))
    && LocksOk(s) && ChainsOk(s) && WheelsOk(s) && ExclusionOk(s)
    && (forall t :: t in s.objs ==> WheelFieldOk(s, t))
    && (forall t :: t in s.objs ==> CountOk(s, t))
  }

  /** Dropping one of the references is not mistaken for dropping the last. */
  predicate DropIsSafe(o: Obj) {
    |o.holders| <= 1 || |o.holders| % 256 != 1
  }

  /**
   * What the code does not check: that a decrement does not reach 0 while there are
   * other references, and that a timer about to be removed still names a wheel at the
   * second read.
   */
  predicate StepIsSafe(s: Store, tid: Tid, a: Action)
    requires Enabled(s, tid, a)
  {
    var pc, refs := s.threads[tid].pc, s.threads[tid].refs;
    match a
    case DropRef(x) => DropIsSafe(s.objs[refs[x]])
    case DropMapRef => DropIsSafe(s.objs[pc.t])
    case DropWheelRef => DropIsSafe(s.objs[pc.t])
    case ReadWheel => s.objs[refs[pc.x]].wheel < NO_WHEEL
    case _ => true
  }

  // ----- reference counting -----

  lemma AddRefCounts(o: Obj, h: Holder)
    requires h !in o.holders && o.refCount == |o.holders| % 256
    ensures AddRef(o, h).refCount == |AddRef(o, h).holders| % 256
    ensures |AddRef(o, h).holders| == |o.holders| + 1
  {}

  /** A safe decrement frees a timer exactly when it drops the last reference. */
  lemma DecRefCounts(o: Obj, h: Holder)
    requires h in o.holders && o.refCount == |o.holders| % 256
    ensures var o' := DecRef(o, h);
            o'.refCount == |o'.holders| % 256
            && |o'.holders| == |o.holders| - 1
            && (DropIsSafe(o) ==> (o'.refCount == 0 <==> o'.holders == {}))
  {
    var n := |o.holders|;
    assert |o.holders - {h}| == n - 1;
    assert (n % 256 + 255) % 256 == (n - 1) % 256;
    if DecRef(o, h).holders == {} { assert n == 1; }
  }

  /** With at most 256 references every decrement is safe. */
  lemma FewReferencesAreSafe(o: Obj)
    requires |o.holders| <= 256
    ensures DropIsSafe(o)
  {}
}
