/**
 * The concurrent timer store of `ttimer/timer.c` as a transition system: one step per
 * atomic operation, plain write or mutex section. The hash chains are guarded by spin
 * locks and walked node by node; the wheel slots are guarded by a mutex per wheel, whose
 * sections are single steps.
 */
module StoreModel {
  import opened Sequences

  type Ptr = nat
  type Tid = nat

  /** `tListLen(wheels)`: the wheel number of a timer that is in no wheel. */
  const NO_WHEEL: nat := 3

  /** Who holds a reference to a timer. */
  datatype Holder = Map | Wheel | Flight(tid: Tid) | Ref(owner: Tid, name: nat)

  /** Allocated but not yet referenced; referenced; passed to `free`. */
  datatype Life = Fresh(tid: Tid) | Live | Freed

  /**
   * A timer. `refCount` is 8 bits wide. `holders`, `links` and `wins` are history: the
   * references taken and not dropped, the times it was linked into a wheel, and the
   * `removeFromWheel` calls that unlinked it.
   */
  datatype Obj = Obj(id: nat, refCount: nat, wheel: nat, slot: nat, added: bool, life: Life,
                     holders: set<Holder>, links: nat, wins: nat)

  /** What a thread wants a chain lock for. */
  datatype Task = Add(t: Ptr) | Find(id: nat, x: nat) | Remove(id: nat)

  /** Where a thread is: before the named step of an operation, or between operations. */
  datatype Pc =
    | Idle
    | AddInit(t: Ptr)               // addTimer: before `timer->wheel = ..`
    | Lock(task: Task)              // spinning in lockTimerList
    | Walk(task: Task, k: nat)      // inside the lock, at node k of the chain
    | RemDec(t: Ptr, h: nat)        // removeTimer: node unlinked, reference still to drop
    | Unlock(h: nat)                // before unlockTimerList
    | WheelSet(t: Ptr, w: nat, sl: nat)  // addToWheel: before `timer->wheel = i`
    | WheelLink(t: Ptr, sl: nat)    // addToWheel: before its mutex section
    | WheelRead(x: nat)             // removeFromWheel: before the second read of `timer->wheel`
    | WheelUnlink(x: nat, w: nat)   // removeFromWheel: before its mutex section
    | WheelDec(t: Ptr)              // removeFromWheel: unlinked, reference still to drop
    | Failed                        // assert(false) in unlockTimerList
    | OutOfBounds                   // removeFromWheel: about to lock the mutex of `wheels + 3`

  /** A thread; `refs` are the references its local variables hold. */
  datatype Thread = Thread(pc: Pc, refs: map<nat, Ptr>)

  datatype Slot = Slot(w: nat, sl: nat)

  datatype Store = Store(
    objs: map<Ptr, Obj>,
    chains: seq<seq<Ptr>>,
    lockedBy: seq<Tid>,
    wheels: map<Slot, seq<Ptr>>,
    threads: map<Tid, Thread>)

  // ----- reading the state -----

  /** The chain of an id. */
  function ChainOf(s: Store, id: nat): (h: nat)
    requires |s.chains| > 0
    ensures h < |s.chains|
  {
    id % |s.chains|
  }

  predicate InMap(s: Store, t: Ptr)
    requires |s.chains| > 0
  {
    t in s.objs && t in s.chains[ChainOf(s, s.objs[t].id)]
  }

  predicate InWheel(s: Store, t: Ptr) {
    t in s.objs &&
    var key := Slot(s.objs[t].wheel, s.objs[t].slot);
    key in s.wheels && t in s.wheels[key]
  }

  /** The timer whose reference a thread has in flight, or -1. */
  function FlightOf(pc: Pc): int {
    match pc
    case AddInit(t) => t
    case Lock(Add(t)) => t
    case Walk(Add(t), _) => t
    case RemDec(t, _) => t
    case WheelSet(t, _, _) => t
    case WheelLink(t, _) => t
    case WheelDec(t) => t
    case _ => -1
  }

  predicate IsHolder(s: Store, t: Ptr, h: Holder)
    requires |s.chains| > 0
  {
    match h
    case Map => InMap(s, t)
    case Wheel => InWheel(s, t)
    case Flight(tid) => tid in s.threads && FlightOf(s.threads[tid].pc) == t
    case Ref(tid, x) => tid in s.threads && x in s.threads[tid].refs && s.threads[tid].refs[x] == t
  }

  /** The chain a thread has locked, or -1. */
  function Inside(s: Store, pc: Pc): int
    requires |s.chains| > 0
  {
    match pc
    case Walk(task, _) => TaskChain(s, task)
    case RemDec(_, h) => h
    case Unlock(h) => h
    case _ => -1
  }

  function TaskId(s: Store, task: Task): nat {
    match task
    case Add(t) => if t in s.objs then s.objs[t].id else 0
    case Find(id, _) => id
    case Remove(id) => id
  }

  function TaskChain(s: Store, task: Task): (h: nat)
    requires |s.chains| > 0
    ensures h < |s.chains|
  {
    ChainOf(s, TaskId(s, task))
  }

  /** The timer a thread is adding to the map and has not published, or -1. */
  function AddingOf(pc: Pc): int {
    match pc
    case AddInit(t) => t
    case Lock(Add(t)) => t
    case Walk(Add(t), _) => t
    case _ => -1
  }

  /** The timer whose wheel fields a thread owns, so that no other thread may use them, or -1. */
  function ExclusiveOf(pc: Pc): int {
    match pc
    case AddInit(t) => t
    case WheelSet(t, _, _) => t
    case WheelLink(t, _) => t
    case _ => -1
  }

  /** The timer a thread is about to read the wheel of again, or to enter the mutex section with, in `removeFromWheel`, or -1. */
  function RemovingOf(th: Thread): int {
    if (th.pc.WheelRead? || th.pc.WheelUnlink?) && th.pc.x in th.refs then th.refs[th.pc.x] else -1
  }

  /** A caller may pass `t` only if it holds a reference, or allocated it and told nobody. */
  predicate MayUse(s: Store, tid: Tid, t: Ptr)
    requires tid in s.threads
  {
    t in s.objs && (s.objs[t].life == Fresh(tid) || t in s.threads[tid].refs.Values)
  }

  // ----- reference counting -----

  function AddRef(o: Obj, h: Holder): Obj {
    o.(refCount := (o.refCount + 1) % 256, holders := o.holders + {h},
       life := if o.life.Fresh? then Live else o.life)
  }

  /** The atomic decrement, and `free` when it yields 0. */
  function DecRef(o: Obj, h: Holder): Obj {
    var n := (o.refCount + 255) % 256;
    o.(refCount := n, holders := o.holders - {h}, life := if n == 0 then Freed else o.life)
  }

  function WithPc(s: Store, tid: Tid, pc: Pc): Store
    requires tid in s.threads
  {
    s.(threads := s.threads[tid := s.threads[tid].(pc := pc)])
  }

  function WithObj(s: Store, t: Ptr, o: Obj): Store {
    s.(objs := s.objs[t := o])
  }

  function IndexOf(q: seq<Ptr>, t: Ptr): (k: nat)
    requires t in q
    ensures k < |q| && q[k] == t
  {
    if q[0] == t then 0 else 1 + IndexOf(q[1..], t)
  }

  // ----- the steps -----

  datatype Action =
    | New(p: Ptr, id: nat)
    | TakeRef(t: Ptr, x: nat)
    | DropRef(x: nat)
    | BeginAdd(t: Ptr)
    | InitWheel
    | BeginFind(id: nat, x: nat)
    | BeginRemove(id: nat)
    | Acquire
    | Spin
    | Push
    | Pass
    | Hit
    | EndOfChain
    | DropMapRef
    | Release
    | BeginWheelAdd(t: Ptr, w: nat, sl: nat)
    | SetWheel
    | LinkWheel
    | BeginWheelRemove(x: nat)
    | ReadWheel
    | UnlinkWheel
    | DropWheelRef

  /** When thread `tid` can take a step; the last conditions are what callers must respect. */
  predicate Enabled(s: Store, tid: Tid, a: Action) {
    |s.chains| > 0 && |s.lockedBy| == |s.chains| && tid in s.threads &&
    var pc, refs := s.threads[tid].pc, s.threads[tid].refs;
    match a
    case New(p, id) =>
      pc.Idle? && p !in s.objs && id != 0
      && forall q :: q in s.objs && !s.objs[q].life.Freed? ==> s.objs[q].id != id
    case TakeRef(t, x) => pc.Idle? && x !in refs && MayUse(s, tid, t)
    case DropRef(x) => pc.Idle? && x in refs && refs[x] in s.objs
    case BeginAdd(t) =>
      pc.Idle? && MayUse(s, tid, t)
      && (s.objs[t].added ==>
            s.objs[t].wheel == NO_WHEEL && !InMap(s, t)
            && forall u :: u in s.threads ==>
                 AddingOf(s.threads[u].pc) != t && ExclusiveOf(s.threads[u].pc) != t && RemovingOf(s.threads[u]) != t)
    case InitWheel => pc.AddInit? && pc.t in s.objs
    case BeginFind(id, x) => pc.Idle? && x !in refs
    case BeginRemove(id) => pc.Idle?
    case Acquire => pc.Lock? && s.lockedBy[TaskChain(s, pc.task)] == 0
    case Spin => pc.Lock? && s.lockedBy[TaskChain(s, pc.task)] != 0
    case Push => pc.Walk? && pc.task.Add? && pc.task.t in s.objs
    case Pass => AtNode(s, pc) && s.objs[NodeAt(s, pc)].id != pc.task.id
    case Hit => AtNode(s, pc) && s.objs[NodeAt(s, pc)].id == pc.task.id
    case EndOfChain => pc.Walk? && !pc.task.Add? && pc.k == |s.chains[TaskChain(s, pc.task)]|
    case DropMapRef => pc.RemDec? && pc.t in s.objs
    case Release => pc.Unlock? && pc.h < |s.chains|
    case BeginWheelAdd(t, w, sl) =>
      pc.Idle? && MayUse(s, tid, t) && s.objs[t].added && s.objs[t].wheel == NO_WHEEL
      && w < NO_WHEEL && Slot(w, sl) in s.wheels
      && forall u :: u in s.threads ==> ExclusiveOf(s.threads[u].pc) != t && RemovingOf(s.threads[u]) != t
    case SetWheel => pc.WheelSet? && pc.t in s.objs
    case LinkWheel => pc.WheelLink? && pc.t in s.objs && Slot(s.objs[pc.t].wheel, pc.sl) in s.wheels
    case BeginWheelRemove(x) =>
      pc.Idle? && x in refs && refs[x] in s.objs && s.objs[refs[x]].added
      && forall u :: u in s.threads ==> ExclusiveOf(s.threads[u].pc) != refs[x]
    case ReadWheel => pc.WheelRead? && pc.x in refs && refs[pc.x] in s.objs
    case UnlinkWheel =>
      pc.WheelUnlink? && pc.x in refs && refs[pc.x] in s.objs
      && (s.objs[refs[pc.x]].wheel < NO_WHEEL ==>
            Slot(pc.w, s.objs[refs[pc.x]].slot) in s.wheels
            && refs[pc.x] in s.wheels[Slot(pc.w, s.objs[refs[pc.x]].slot)])
    case DropWheelRef => pc.WheelDec? && pc.t in s.objs
  }

  /** A walking thread looks at a node of its chain. */
  predicate AtNode(s: Store, pc: Pc)
    requires |s.chains| > 0
  {
    pc.Walk? && !pc.task.Add? && pc.k < |s.chains[TaskChain(s, pc.task)]|
    && s.chains[TaskChain(s, pc.task)][pc.k] in s.objs
  }

  function NodeAt(s: Store, pc: Pc): Ptr
    requires |s.chains| > 0 && AtNode(s, pc)
  {
    s.chains[TaskChain(s, pc.task)][pc.k]
  }

  function Next(s: Store, tid: Tid, a: Action): (r: Store)
    requires Enabled(s, tid, a)
    ensures |r.chains| == |s.chains|
  {
    var th := s.threads[tid];
    match a
    case New(p, id) => WithObj(s, p, Obj(id, 0, 0, 0, false, Fresh(tid), {}, 0, 0))
    case TakeRef(t, x) =>
      WithObj(s, t, AddRef(s.objs[t], Ref(tid, x))).(threads := s.threads[tid := th.(refs := th.refs[x := t])])
    case DropRef(x) =>
      WithObj(s, th.refs[x], DecRef(s.objs[th.refs[x]], Ref(tid, x)))
        .(threads := s.threads[tid := th.(refs := th.refs - {x})])
    case BeginAdd(t) =>
      WithPc(WithObj(s, t, AddRef(s.objs[t], Flight(tid)).(added := true)), tid, AddInit(t))
    case InitWheel =>
      WithPc(WithObj(s, th.pc.t, s.objs[th.pc.t].(wheel := NO_WHEEL)), tid, Lock(Add(th.pc.t)))
    case BeginFind(id, x) => if id > 0 then WithPc(s, tid, Lock(Find(id, x))) else s
    case BeginRemove(id) => WithPc(s, tid, Lock(Remove(id)))
    case Acquire =>
      WithPc(s, tid, Walk(th.pc.task, 0)).(lockedBy := s.lockedBy[TaskChain(s, th.pc.task) := tid])
    case Spin => s
    case Push => PushNode(s, tid, th.pc.task.t)
    case Pass => WithPc(s, tid, th.pc.(k := th.pc.k + 1))
    case Hit => HitNode(s, tid)
    case EndOfChain => WithPc(s, tid, Unlock(TaskChain(s, th.pc.task)))
    case DropMapRef => WithPc(WithObj(s, th.pc.t, DecRef(s.objs[th.pc.t], Flight(tid))), tid, Unlock(th.pc.h))
    case Release =>
      if s.lockedBy[th.pc.h] == tid
      then WithPc(s, tid, Idle).(lockedBy := s.lockedBy[th.pc.h := 0])
      else WithPc(s, tid, Failed)
    case BeginWheelAdd(t, w, sl) =>
      WithPc(WithObj(s, t, AddRef(s.objs[t], Flight(tid))), tid, WheelSet(t, w, sl))
    case SetWheel =>
      WithPc(WithObj(s, th.pc.t, s.objs[th.pc.t].(wheel := th.pc.w)), tid, WheelLink(th.pc.t, th.pc.sl))
    case LinkWheel => LinkNode(s, tid, th.pc.t, th.pc.sl)
    case BeginWheelRemove(x) =>
      if s.objs[th.refs[x]].wheel >= NO_WHEEL then s else WithPc(s, tid, WheelRead(x))
    case ReadWheel =>
      var w := s.objs[th.refs[th.pc.x]].wheel;
      WithPc(s, tid, if w < NO_WHEEL then WheelUnlink(th.pc.x, w) else OutOfBounds)
    case UnlinkWheel =>
      if s.objs[th.refs[th.pc.x]].wheel < NO_WHEEL
      then UnlinkNode(s, tid, th.refs[th.pc.x], th.pc.w)
      else WithPc(s, tid, Idle)
    case DropWheelRef => WithPc(WithObj(s, th.pc.t, DecRef(s.objs[th.pc.t], Flight(tid))), tid, Idle)
  }

  /** `addTimer` publishes the node: its reference in flight becomes the map's. */
  function PushNode(s: Store, tid: Tid, t: Ptr): Store
    requires |s.chains| > 0 && tid in s.threads && t in s.objs
  {
    var h := ChainOf(s, s.objs[t].id);
    var o := s.objs[t];
    WithPc(WithObj(s, t, o.(holders := o.holders - {Flight(tid)} + {Map})), tid, Unlock(h))
      .(chains := s.chains[h := [t] + s.chains[h]])
  }

  /** `findTimer` takes a reference; `removeTimer` unlinks the node and has its reference to drop. */
  function HitNode(s: Store, tid: Tid): Store
    requires |s.chains| > 0 && tid in s.threads && AtNode(s, s.threads[tid].pc)
  {
    var th := s.threads[tid];
    var p, h := NodeAt(s, th.pc), TaskChain(s, th.pc.task);
    if th.pc.task.Find? then
      WithObj(s, p, AddRef(s.objs[p], Ref(tid, th.pc.task.x)))
        .(threads := s.threads[tid := Thread(Unlock(h), th.refs[th.pc.task.x := p])])
    else
      var o := s.objs[p];
      WithPc(WithObj(s, p, o.(holders := o.holders - {Map} + {Flight(tid)})), tid, RemDec(p, h))
        .(chains := s.chains[h := Cut(s.chains[h], th.pc.k)])
  }

  /** The mutex section of `addToWheel`. */
  function LinkNode(s: Store, tid: Tid, t: Ptr, sl: nat): Store
    requires tid in s.threads && t in s.objs && Slot(s.objs[t].wheel, sl) in s.wheels
  {
    var o := s.objs[t];
    var key := Slot(o.wheel, sl);
    WithPc(WithObj(s, t, o.(slot := sl, links := o.links + 1,
                            holders := o.holders - {Flight(tid)} + {Wheel})), tid, Idle)
      .(wheels := s.wheels[key := [t] + s.wheels[key]])
  }

  /** The mutex section of `removeFromWheel`, on the wheel of the second read. */
  function UnlinkNode(s: Store, tid: Tid, t: Ptr, w: nat): Store
    requires tid in s.threads && t in s.objs
    requires Slot(w, s.objs[t].slot) in s.wheels && t in s.wheels[Slot(w, s.objs[t].slot)]
  {
    var o := s.objs[t];
    var key := Slot(w, o.slot);
    WithPc(WithObj(s, t, o.(wheel := NO_WHEEL, wins := o.wins + 1,
                            holders := o.holders - {Wheel} + {Flight(tid)})), tid, WheelDec(t))
      .(wheels := s.wheels[key := Cut(s.wheels[key], IndexOf(s.wheels[key], t))])
  }
}
