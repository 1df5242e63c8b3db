/** When a timer is freed, and what the reference count says, in every interleaving. */
module StoreLifetime {
  import opened StoreModel
  import opened StoreInvariant
  import opened StoreSteps
  import opened StoreRuns

  // ----- the reference count -----

  /** The threads with a reference to `t` in flight. */
  function Flights(s: Store, t: Ptr): set<Tid> {
    set u | u in s.threads && FlightOf(s.threads[u].pc) == t
  }

  /** The local variables that hold a reference to `t`. */
  function Borrows(s: Store, t: Ptr): set<(Tid, nat)> {
    set u, x | u in s.threads && x in s.threads[u].refs && s.threads[u].refs[x] == t :: (u, x)
  }

  /** The places that refer to `t`: the map, a wheel, operations under way, local variables. */
  function References(s: Store, t: Ptr): nat
    requires |s.chains| > 0
  {
    (if InMap(s, t) then 1 else 0) + (if InWheel(s, t) then 1 else 0) + |Flights(s, t)| + |Borrows(s, t)|
  }

  lemma {:induction false} FlightsCounted(f: set<Tid>)
    ensures |set u | u in f :: Flight(u)| == |f|
  {
    if f != {} {
      var u :| u in f;
      FlightsCounted(f - {u});
      assert (set v | v in f :: Flight(v)) == (set v | v in f - {u} :: Flight(v)) + {Flight(u)};
    }
  }

  lemma {:induction false} BorrowsCounted(b: set<(Tid, nat)>)
    ensures |set p | p in b :: Ref(p.0, p.1)| == |b|
  {
    if b != {} {
      var p :| p in b;
      BorrowsCounted(b - {p});
      assert (set r | r in b :: Ref(r.0, r.1)) == (set r | r in b - {p} :: Ref(r.0, r.1)) + {Ref(p.0, p.1)};
    }
  }

  /** The map and the wheel, as far as they refer to `t`. */
  function Fixtures(s: Store, t: Ptr): set<Holder>
    requires |s.chains| > 0
  {
    (if InMap(s, t) then {Map} else {}) + (if InWheel(s, t) then {Holder.Wheel} else {})
  }

  lemma HoldersByKind(s: Store, t: Ptr, h: Holder)
    requires |s.chains| > 0 && t in s.objs
    ensures IsHolder(s, t, h) <==>
            h in Fixtures(s, t)
            || h in (set u | u in Flights(s, t) :: Flight(u))
            || h in (set p | p in Borrows(s, t) :: Ref(p.0, p.1))
  {
    hide InMap, InWheel;
    if h.Ref? {
      assert h in (set p | p in Borrows(s, t) :: Ref(p.0, p.1)) <==> (h.owner, h.name) in Borrows(s, t);
    }
  }

  lemma KindsAreDisjoint(s: Store, t: Ptr)
    requires |s.chains| > 0
    ensures var fl := set u | u in Flights(s, t) :: Flight(u);
            var bo := set p | p in Borrows(s, t) :: Ref(p.0, p.1);
            Fixtures(s, t) !! fl && Fixtures(s, t) !! bo && fl !! bo
    ensures |Fixtures(s, t)| == (if InMap(s, t) then 1 else 0) + (if InWheel(s, t) then 1 else 0)
  {
    hide InMap, InWheel, Flights, Borrows;
  }

  lemma ThreeParts<T>(x: set<T>, a: set<T>, b: set<T>, c: set<T>)
    requires forall e :: e in x <==> e in a || e in b || e in c
    requires a !! b && a !! c && b !! c
    ensures |x| == |a| + |b| + |c|
  {
    assert x == a + b + c;
    assert |a + b| == |a| + |b|;
  }

  lemma HoldersAreReferences(s: Store, t: Ptr)
    requires |s.chains| > 0 && t in s.objs && CountOk(s, t)
    ensures |s.objs[t].holders| == References(s, t)
  {
    var fl := set u | u in Flights(s, t) :: Flight(u);
    var bo := set p | p in Borrows(s, t) :: Ref(p.0, p.1);
    forall h
      ensures h in s.objs[t].holders <==> h in Fixtures(s, t) || h in fl || h in bo
    {
      assert h in s.objs[t].holders <==> IsHolder(s, t, h);
      hide CountOk, IsHolder, Fixtures, Flights, Borrows;
      HoldersByKind(s, t, h);
    }
    hide CountOk, IsHolder, Fixtures, Flights, Borrows, InMap, InWheel;
    KindsAreDisjoint(s, t);
    ThreeParts(s.objs[t].holders, Fixtures(s, t), fl, bo);
    FlightsCounted(Flights(s, t));
    BorrowsCounted(Borrows(s, t));
  }

  /**
   * In every reachable state the counter is the number of references, of which there can
   * be 256; and a timer is live exactly while there is one.
   */
  lemma RefCountIsReferences(s: Store, t: Ptr)
    requires Inv(s) && t in s.objs
    ensures s.objs[t].refCount == References(s, t) % 256
    ensures References(s, t) < 256 ==> s.objs[t].refCount == References(s, t)
    ensures s.objs[t].life == Live <==> References(s, t) > 0
  {
    hide ChainsOk, WheelsOk, LocksOk, ExclusionOk, PcOk, WheelFieldOk, References;
    assert CountOk(s, t);
    HoldersAreReferences(s, t);
    hide Inv, IsHolder;
  }

  // ----- no pointer reaches a freed timer -----

  /** The timers whose fields a step reads or writes. */
  function Touches(s: Store, tid: Tid, a: Action): set<Ptr>
    requires Enabled(s, tid, a)
  {
    var pc, refs := s.threads[tid].pc, s.threads[tid].refs;
    match a
    case New(_, _) => {}
    case TakeRef(t, _) => {t}
    case DropRef(x) => {refs[x]}
    case BeginAdd(t) => {t}
    case InitWheel => {pc.t}
    case BeginFind(_, _) => {}
    case BeginRemove(_) => {}
    case Acquire => if pc.task.Add? then {pc.task.t} else {}
    case Spin => {}
    case Push => {pc.task.t}
    case Pass => {NodeAt(s, pc)}
    case Hit => {NodeAt(s, pc)} + if pc.k > 0 then {s.chains[TaskChain(s, pc.task)][pc.k - 1]} else {}
    case EndOfChain => {}
    case DropMapRef => {pc.t}
    case Release => {}
    case BeginWheelAdd(t, _, _) => {t}
    case SetWheel => {pc.t}
    case LinkWheel => {pc.t} + set p | p in s.wheels[Slot(s.objs[pc.t].wheel, pc.sl)]
    case BeginWheelRemove(x) => {refs[x]}
    case ReadWheel => {refs[pc.x]}
    case UnlinkWheel =>
      {refs[pc.x]} + if s.objs[refs[pc.x]].wheel < NO_WHEEL
                     then set p | p in s.wheels[Slot(pc.w, s.objs[refs[pc.x]].slot)] else {}
    case DropWheelRef => {pc.t}
  }

  /** Every node of a chain and of a wheel slot is live. */
  lemma LinkedIsLive(s: Store, t: Ptr)
    requires Inv(s)
    ensures forall h :: 0 <= h < |s.chains| && t in s.chains[h] ==> t in s.objs && s.objs[t].life == Live
    ensures forall key :: key in s.wheels && t in s.wheels[key] ==> t in s.objs && s.objs[t].life == Live
  {
    hide PcOk, LocksOk, ExclusionOk, CountOk, WheelFieldOk;
    if t in s.objs && InMap(s, t) { HeldIsLive(s, t, Map); }
    if t in s.objs && InWheel(s, t) { HeldIsLive(s, t, Holder.Wheel); }
  }

  lemma ReferredIsLive(s: Store, tid: Tid)
    requires Inv(s) && tid in s.threads
    ensures var th := s.threads[tid];
            (FlightOf(th.pc) >= 0 ==> FlightOf(th.pc) in s.objs && s.objs[FlightOf(th.pc)].life == Live)
            && (forall x :: x in th.refs ==> th.refs[x] in s.objs && s.objs[th.refs[x]].life == Live)
  {
    hide LocksOk, ChainsOk, WheelsOk, ExclusionOk, CountOk, WheelFieldOk, InMap, InWheel;
    var th := s.threads[tid];
    assert PcOk(s, tid);
    if FlightOf(th.pc) >= 0 { HeldIsLive(s, FlightOf(th.pc), Flight(tid)); }
    forall x | x in th.refs
      ensures s.objs[th.refs[x]].life == Live
    {
      HeldIsLive(s, th.refs[x], Ref(tid, x));
    }
  }

  /** A touched timer is linked, or referred to by the thread, or usable by the idle thread. */
  lemma TouchedHow(s: Store, tid: Tid, a: Action, p: Ptr)
    requires Enabled(s, tid, a) && p in Touches(s, tid, a)
    ensures (exists h :: 0 <= h < |s.chains| && p in s.chains[h])
            || (exists key :: key in s.wheels && p in s.wheels[key])
            || FlightOf(s.threads[tid].pc) == p
            || (exists x :: x in s.threads[tid].refs && s.threads[tid].refs[x] == p)
            || (s.threads[tid].pc.Idle? && MayUse(s, tid, p))
  {
    var pc := s.threads[tid].pc;
    if (a.Pass? || a.Hit?) {
      assert p in s.chains[TaskChain(s, pc.task)];
    } else if a.LinkWheel? || a.UnlinkWheel? {
      LinkTouches(s, tid, a, p);
    }
  }

  lemma LinkTouches(s: Store, tid: Tid, a: Action, p: Ptr)
    requires Enabled(s, tid, a) && p in Touches(s, tid, a) && (a.LinkWheel? || a.UnlinkWheel?)
    ensures (exists key :: key in s.wheels && p in s.wheels[key])
            || FlightOf(s.threads[tid].pc) == p
            || (exists x :: x in s.threads[tid].refs && s.threads[tid].refs[x] == p)
  {}

  /** In no interleaving does a step touch a timer that was freed. */
  lemma NoStepTouchesFreed(s: Store, tid: Tid, a: Action, p: Ptr)
    requires Inv(s) && Enabled(s, tid, a) && p in Touches(s, tid, a)
    ensures p in s.objs && !s.objs[p].life.Freed?
    ensures s.objs[p].life.Fresh? ==> s.objs[p].life.tid == tid && s.threads[tid].pc.Idle?
  {
    LinkedIsLive(s, p);
    ReferredIsLive(s, tid);
    TouchedHow(s, tid, a, p);
    hide Inv, InMap, InWheel, Touches, Enabled;
  }

  // ----- freed once -----

  /** The step is a decrement of the counter of `t` that yields 0, so it calls `free`. */
  predicate CallsFree(s: Store, tid: Tid, a: Action, t: Ptr)
    requires Enabled(s, tid, a)
  {
    match a
    case DropRef(x) => s.threads[tid].refs[x] == t && (s.objs[t].refCount + 255) % 256 == 0
    case DropMapRef => s.threads[tid].pc.t == t && (s.objs[t].refCount + 255) % 256 == 0
    case DropWheelRef => s.threads[tid].pc.t == t && (s.objs[t].refCount + 255) % 256 == 0
    case _ => false
  }

  /** Timers a step does not touch stay as they are. */
  lemma UntouchedIsKept(s: Store, tid: Tid, a: Action, t: Ptr)
    requires Enabled(s, tid, a) && t in s.objs && t !in Touches(s, tid, a)
    ensures t in Next(s, tid, a).objs && Next(s, tid, a).objs[t] == s.objs[t]
    ensures !CallsFree(s, tid, a, t)
  {
    if Relinks(a) {
      UnlinkedIsKept(s, tid, a, t);
    } else {
      hide PushNode, HitNode, LinkNode, UnlinkNode;
    }
  }

  lemma UnlinkedIsKept(s: Store, tid: Tid, a: Action, t: Ptr)
    requires Enabled(s, tid, a) && t in s.objs && t !in Touches(s, tid, a) && Relinks(a)
    ensures t in Next(s, tid, a).objs && Next(s, tid, a).objs[t] == s.objs[t]
    ensures !CallsFree(s, tid, a, t)
  {}

  predicate Relinks(a: Action) {
    a.Push? || a.Hit? || a.LinkWheel? || a.UnlinkWheel?
  }

  lemma LifeOfRelinked(s: Store, tid: Tid, a: Action, t: Ptr)
    requires Enabled(s, tid, a) && t in s.objs && Relinks(a)
    ensures t in Next(s, tid, a).objs && !CallsFree(s, tid, a, t)
    ensures Next(s, tid, a).objs[t].life == s.objs[t].life
            || (s.objs[t].life.Fresh? && Next(s, tid, a).objs[t].life == Live)
  {}

  lemma LifeOfTouched(s: Store, tid: Tid, a: Action, t: Ptr)
    requires Enabled(s, tid, a) && t in s.objs && !s.objs[t].life.Freed?
    ensures t in Next(s, tid, a).objs
    ensures var l, l' := s.objs[t].life, Next(s, tid, a).objs[t].life;
            l' == l || l' == Live || l' == Freed
    ensures Next(s, tid, a).objs[t].life.Freed? <==> CallsFree(s, tid, a, t)
  {
    if Relinks(a) {
      LifeOfRelinked(s, tid, a, t);
    } else {
      hide PushNode, HitNode, LinkNode, UnlinkNode;
    }
  }

  lemma FreedWasHeld(s: Store, tid: Tid, a: Action, t: Ptr)
    requires Inv(s) && Enabled(s, tid, a) && CallsFree(s, tid, a, t)
    ensures t in s.objs && s.objs[t].life == Live
  {
    ReferredIsLive(s, tid);
    hide Inv;
  }

  /**
   * `free` is called on a timer exactly by the step with which its last holder lets go, and
   * never on one that was freed.
   */
  lemma FreedWithLastReference(s: Store, tid: Tid, a: Action, t: Ptr)
    requires Inv(s) && Enabled(s, tid, a) && StepIsSafe(s, tid, a) && t in s.objs
    ensures t in Next(s, tid, a).objs
    ensures CallsFree(s, tid, a, t) <==>
            References(s, t) > 0 && References(Next(s, tid, a), t) == 0
    ensures CallsFree(s, tid, a, t) <==> !s.objs[t].life.Freed? && Next(s, tid, a).objs[t].life.Freed?
    ensures s.objs[t].life.Freed? ==> Next(s, tid, a).objs[t] == s.objs[t]
  {
    hide Inv, StepIsSafe, References, Enabled, Touches, CallsFree, Next;
    StepKeepsInv(s, tid, a);
    RefCountIsReferences(s, t);
    if t !in Touches(s, tid, a) {
      UntouchedIsKept(s, tid, a, t);
      RefCountIsReferences(Next(s, tid, a), t);
    } else {
      NoStepTouchesFreed(s, tid, a, t);
      LifeOfTouched(s, tid, a, t);
      RefCountIsReferences(Next(s, tid, a), t);
      if CallsFree(s, tid, a, t) { FreedWasHeld(s, tid, a, t); }
    }
  }

  /** The calls of `free` on `t` in a run. */
  ghost function FreeCalls(s: Store, run: seq<Step>, t: Ptr): nat
    requires Legal(s, run)
    decreases |run|
  {
    if run == [] then 0
    else (if CallsFree(s, run[0].tid, run[0].a, t) then 1 else 0)
         + FreeCalls(Next(s, run[0].tid, run[0].a), run[1..], t)
  }

  /** Over a whole run a timer is freed at most once, and exactly once if it has had and lost its holders. */
  lemma {:induction false} FreedOnce(s: Store, run: seq<Step>, t: Ptr)
    requires |s.chains| > 0 && Inv(s) && Legal(s, run) && t in s.objs && !s.objs[t].life.Freed?
    ensures FreeCalls(s, run, t) <= 1
    ensures t in After(s, run).objs
    ensures FreeCalls(s, run, t) == 1 <==> After(s, run).objs[t].life.Freed?
    ensures References(s, t) > 0 ==> (FreeCalls(s, run, t) == 1 <==> References(After(s, run), t) == 0)
    decreases |run|
  {
    hide Inv, StepIsSafe, References, Enabled, CallsFree, Next;
    RefCountIsReferences(s, t);
    if run != [] {
      var s1 := Next(s, run[0].tid, run[0].a);
      FreedWithLastReference(s, run[0].tid, run[0].a, t);
      StepKeepsInv(s, run[0].tid, run[0].a);
      if s1.objs[t].life.Freed? {
        StaysFreed(s1, run[1..], t);
      } else {
        FreedOnce(s1, run[1..], t);
      }
    }
  }

  lemma {:induction false} StaysFreed(s: Store, run: seq<Step>, t: Ptr)
    requires |s.chains| > 0 && Inv(s) && Legal(s, run) && t in s.objs && s.objs[t].life.Freed?
    ensures FreeCalls(s, run, t) == 0
    ensures t in After(s, run).objs && After(s, run).objs[t] == s.objs[t]
    ensures References(After(s, run), t) == 0
    decreases |run|
  {
    hide Inv, StepIsSafe, References, Enabled, CallsFree, Next;
    RefCountIsReferences(s, t);
    if run != [] {
      FreedWithLastReference(s, run[0].tid, run[0].a, t);
      StepKeepsInv(s, run[0].tid, run[0].a);
      StaysFreed(Next(s, run[0].tid, run[0].a), run[1..], t);
    }
  }

  // ----- the width of the counter -----

  /**
   * The exact limit of the 8-bit counter: a decrement frees a timer that is still held
   * if and only if it had a multiple of 256 references besides the one dropped.
   */
  lemma DecrementFreesHeldTimer(o: Obj, h: Holder)
    requires h in o.holders && o.life == Live && o.refCount == |o.holders| % 256
    ensures DecRef(o, h).life.Freed? && DecRef(o, h).holders != {} <==>
            |o.holders| > 1 && |o.holders| % 256 == 1
  {
    assert |DecRef(o, h).holders| == |o.holders| - 1;
    assert (|o.holders| % 256 + 255) % 256 == 0 <==> |o.holders| % 256 == 1;
    if |o.holders| > 1 { assert DecRef(o, h).holders != {}; }
  }

  /** One thread that created timer 0 and borrowed it `n` times. */
  ghost function Borrowed(n: nat): Store {
    Store(map[0 := Obj(1, n % 256, 0, 0, false, if n == 0 then Fresh(1) else Live,
                       set x: nat | x < n :: Ref(1, x), 0, 0)],
          [[]], [0], map[], map[1 := Thread(Idle, Names(n))])
  }

  /** Variables 0 to `n - 1`, all holding timer 0. */
  function Names(n: nat): (r: map<nat, Ptr>)
    ensures forall x: nat :: x in r <==> x < n
    ensures forall x :: x in r ==> r[x] == 0
  {
    if n == 0 then map[] else Names(n - 1)[n - 1 := 0]
  }

  lemma MayBorrow(n: nat)
    ensures Enabled(Borrowed(n), 1, TakeRef(0, n))
  {
    var r := Names(n);
    if n > 0 {
      assert 0 in r && r[0] == 0;
      assert 0 in r.Values;
    }
    hide Names;
  }

  lemma BorrowOnce(n: nat)
    ensures Enabled(Borrowed(n), 1, TakeRef(0, n)) && Next(Borrowed(n), 1, TakeRef(0, n)) == Borrowed(n + 1)
  {
    MayBorrow(n);
    hide Enabled;
    var s, s' := Borrowed(n), Next(Borrowed(n), 1, TakeRef(0, n));
    assert s'.objs[0].holders == Borrowed(n + 1).objs[0].holders;
    assert Names(n + 1) == Names(n)[n := 0];
    hide Names;
    assert s'.objs == Borrowed(n + 1).objs;
    assert s'.threads == Borrowed(n + 1).threads;
  }

  /** The first step of that run. */
  lemma FirstTimer(s: Store)
    requires s == Store(map[], [[]], [0], map[], map[1 := Thread(Idle, map[])])
    ensures Initial(s) && Enabled(s, 1, New(0, 1)) && Next(s, 1, New(0, 1)) == Borrowed(0)
  {
    assert Borrowed(0).objs[0].holders == {};
    assert Names(0) == map[];
  }

  /** A run in which the 257th reference wraps the counter and the first release frees the timer. */
  lemma WrappedCounterFreesHeldTimer(s: Store)
    requires s == Store(map[], [[]], [0], map[], map[1 := Thread(Idle, map[])])
    ensures Initial(s) && Enabled(s, 1, New(0, 1)) && Next(s, 1, New(0, 1)) == Borrowed(0)
    ensures forall n: nat :: Enabled(Borrowed(n), 1, TakeRef(0, n)) && Next(Borrowed(n), 1, TakeRef(0, n)) == Borrowed(n + 1)
    ensures Enabled(Borrowed(257), 1, DropRef(0))
    ensures var s' := Next(Borrowed(257), 1, DropRef(0));
            s'.objs[0].life.Freed? && 1 in s'.threads[1].refs && s'.threads[1].refs[1] == 0
  {
    FirstTimer(s);
    hide Next, Enabled, Initial, Borrowed;
    forall n: nat
      ensures Enabled(Borrowed(n), 1, TakeRef(0, n)) && Next(Borrowed(n), 1, TakeRef(0, n)) == Borrowed(n + 1)
    {
      BorrowOnce(n);
    }
    ReleaseOne(257);
  }

  lemma ReleaseOne(n: nat)
    requires n > 1 && n % 256 == 1
    ensures Enabled(Borrowed(n), 1, DropRef(0))
    ensures var s' := Next(Borrowed(n), 1, DropRef(0));
            s'.objs[0].life.Freed? && 1 in s'.threads[1].refs && s'.threads[1].refs[1] == 0
  {
    var r := Names(n);
    assert 0 in r && 1 in r && r[1] == 0;
    hide Names;
  }
}
