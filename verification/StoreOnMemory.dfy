/**
 * The transition system on memory: what each step of a thread writes through its
 * pointers, and that in every interleaving the memory spells out exactly the chains,
 * slot lists and counters of the state. The writes are those of the methods of `TimerTables`.
 */
module StoreOnMemory {
  import opened Sequences
  import opened StoreModel
  import opened StoreInvariant
  import opened StoreFieldSteps
  import opened StoreChainSteps
  import opened StoreWheelSteps
  import opened StoreMemory
  import opened TimerTables
  import opened StoreRuns

  /** The timers, the heads of the chains and the heads of the wheel slots. */
  datatype Memory = Memory(m: seq<TmrNode>, heads: seq<int>, slots: map<Slot, int>)

  /** The node of `t` holds what the state says, links apart. */
  predicate Agrees(m: seq<TmrNode>, s: Store, t: Ptr)
    requires t in s.objs
  {
    t < |m| && m[t].id == s.objs[t].id && m[t].refCount == s.objs[t].refCount
    && m[t].wheel == s.objs[t].wheel && m[t].slot == s.objs[t].slot
  }

  ghost predicate FieldsAgree(m: seq<TmrNode>, s: Store) {
    forall t :: t in s.objs ==> Agrees(m, s, t)
  }

  ghost predicate SlotsMirror(m: seq<TmrNode>, slots: map<Slot, int>, s: Store) {
    && slots.Keys == s.wheels.Keys
    && forall key :: key in s.wheels ==>
         slots[key] == NodeAtOrNil(s.wheels[key], 0) && ListMirror(m, s.wheels[key], key, s.objs.Keys)
  }

  /** The memory is that of the state: well-formed chains and doubly linked slot lists, and the fields. */
  ghost predicate Represents(r: Memory, s: Store) {
    ChainMirror(r.m, r.heads, s.chains) && SlotsMirror(r.m, r.slots, s) && FieldsAgree(r.m, s)
  }

  /** A write to a node; none if the pointer leads nowhere. */
  function Put(m: seq<TmrNode>, t: int, o: TmrNode): (r: seq<TmrNode>)
    ensures |r| == |m|
  {
    if 0 <= t < |m| then m[t := o] else m
  }

  // ----- the writes of a step -----

  /** `addTimer` inside the chain lock. */
  function PushWrites(r: Memory, t: Ptr): Memory
    requires t < |r.m| && |r.heads| > 0
  {
    var h := r.m[t].id % |r.heads|;
    r.(m := r.m[t := r.m[t].(mnext := r.heads[h])], heads := r.heads[h := t])
  }

  /** `removeTimer` bypasses node `p` of list `h`, found behind `prev`. */
  function BypassWrites(r: Memory, h: nat, prev: int, p: Ptr): Memory
    requires p < |r.m| && h < |r.heads|
  {
    if prev == NIL then r.(heads := r.heads[h := r.m[p].mnext])
    else if 0 <= prev < |r.m| then r.(m := r.m[prev := r.m[prev].(mnext := r.m[p].mnext)])
    else r
  }

  /** `addToWheel` inside the mutex section. */
  function LinkWrites(r: Memory, t: Ptr, sl: nat): Memory
    requires t < |r.m|
  {
    var key := Slot(r.m[t].wheel, sl);
    if key in r.slots && (r.slots[key] == NIL || 0 <= r.slots[key] < |r.m|)
    then r.(m := LinkMem(r.m, t, key, r.slots[key]), slots := r.slots[key := t])
    else r
  }

  /** `removeFromWheel` inside the mutex section, the decrement apart. */
  function UnlinkWrites(r: Memory, t: Ptr): Memory
    requires t < |r.m|
  {
    var key := KeyOf(r.m[t]);
    if r.m[t].wheel < NO_WHEEL && Linked(r.m, t) && key in r.slots
    then r.(m := UnlinkMem(r.m, t), slots := if r.slots[key] == t then r.slots[key := r.m[t].next] else r.slots)
    else r
  }

  /** The memory after a step; program counters and references are the threads' own. */
  function Writes(r: Memory, s: Store, tid: Tid, a: Action): Memory
    requires Enabled(s, tid, a) && Represents(r, s)
  {
    var pc, refs := s.threads[tid].pc, s.threads[tid].refs;
    match a
    case New(p, id) => r.(m := Put(r.m, p, TmrNode(id, NIL, NIL, NIL, 0, 0, 0, 0)))
    case TakeRef(t, _) => r.(m := RefTaken(r.m, t))
    case DropRef(x) => r.(m := RefDropped(r.m, refs[x]))
    case BeginAdd(t) => r.(m := RefTaken(r.m, t))
    case InitWheel => r.(m := r.m[pc.t := r.m[pc.t].(wheel := NO_WHEEL)])
    case Push => PushWrites(r, pc.task.t)
    case Hit =>
      if pc.task.Find? then r.(m := RefTaken(r.m, NodeAt(s, pc)))
      else BypassWrites(r, TaskChain(s, pc.task), NodeBefore(s.chains[TaskChain(s, pc.task)], pc.k), NodeAt(s, pc))
    case DropMapRef => r.(m := RefDropped(r.m, pc.t))
    case BeginWheelAdd(t, _, _) => r.(m := RefTaken(r.m, t))
    case SetWheel => r.(m := r.m[pc.t := r.m[pc.t].(wheel := pc.w)])
    case LinkWheel => LinkWrites(r, pc.t, pc.sl)
    case UnlinkWheel => UnlinkWrites(r, refs[pc.x])
    case DropWheelRef => r.(m := RefDropped(r.m, pc.t))
    case _ => r
  }

  // ----- steps that write counters only, or nothing -----

  /** The structure of the state and the fields of its timers stay, but for the counter of `t`. */
  ghost predicate SameButCount(s: Store, s': Store, t: Ptr) {
    && s'.chains == s.chains && s'.wheels == s.wheels && s'.objs.Keys == s.objs.Keys
    && forall p :: p in s.objs ==>
         s'.objs[p].id == s.objs[p].id && s'.objs[p].wheel == s.objs[p].wheel && s'.objs[p].slot == s.objs[p].slot
         && (p != t ==> s'.objs[p].refCount == s.objs[p].refCount)
  }

  lemma CountWritten(r: Memory, s: Store, s': Store, t: Ptr, o: TmrNode)
    requires Represents(r, s) && t in s.objs && SameButCount(s, s', t)
    requires t < |r.m| && o == r.m[t].(refCount := s'.objs[t].refCount)
    ensures Represents(r.(m := r.m[t := o]), s')
  {
    ChainFrame(r.m, r.m[t := o], r.heads, s.chains);
    forall key | key in s.wheels
      ensures ListMirror(r.m[t := o], s.wheels[key], key, s.objs.Keys)
    {
      ListFrame(r.m, r.m[t := o], s.wheels[key], key, s.objs.Keys);
    }
    hide ChainMirror, ListMirror;
    forall p | p in s'.objs
      ensures Agrees(r.m[t := o], s', p)
    {
      assert Agrees(r.m, s, p);
    }
  }

  lemma ListFrame(m: seq<TmrNode>, m': seq<TmrNode>, q: seq<nat>, key: Slot, nodes: set<nat>)
    requires ListMirror(m, q, key, nodes) && |m'| == |m|
    requires forall t :: t in q && t < |m| ==>
               m'[t].prev == m[t].prev && m'[t].next == m[t].next && KeyOf(m'[t]) == KeyOf(m[t])
    ensures ListMirror(m', q, key, nodes)
  {
    forall j | 0 <= j < |q|
      ensures q[j] in nodes && q[j] < |m'| && LinkedAs(m'[q[j]], q, j, key)
    {
      assert LinkedAs(m[q[j]], q, j, key);
    }
  }

  lemma NothingWritten(r: Memory, s: Store, s': Store)
    requires Represents(r, s) && s'.chains == s.chains && s'.wheels == s.wheels && s'.objs == s.objs
    ensures Represents(r, s')
  {
    hide ChainMirror, ListMirror;
    forall t | t in s'.objs
      ensures Agrees(r.m, s', t)
    {
      assert Agrees(r.m, s, t);
    }
  }

  /** The timer whose counter a step changes. */
  function Counted(s: Store, tid: Tid, a: Action): int
    requires Enabled(s, tid, a)
  {
    var pc, refs := s.threads[tid].pc, s.threads[tid].refs;
    match a
    case TakeRef(t, _) => t
    case DropRef(x) => refs[x]
    case BeginAdd(t) => t
    case Hit => if pc.task.Find? then NodeAt(s, pc) else NIL
    case DropMapRef => pc.t
    case BeginWheelAdd(t, _, _) => t
    case DropWheelRef => pc.t
    case _ => NIL
  }

  lemma CountingStep(r: Memory, s: Store, tid: Tid, a: Action)
    requires Enabled(s, tid, a) && Represents(r, s) && Counted(s, tid, a) != NIL
    ensures Represents(Writes(r, s, tid, a), Next(s, tid, a))
  {
    hide ChainMirror, ListMirror;
    var t, s' := Counted(s, tid, a), Next(s, tid, a);
    CountsOne(s, tid, a);
    assert Agrees(r.m, s, t);
    CountsInMemory(r, s, tid, a);
    CountWritten(r, s, s', t, r.m[t].(refCount := s'.objs[t].refCount));
  }

  lemma CountsOne(s: Store, tid: Tid, a: Action)
    requires Enabled(s, tid, a) && Counted(s, tid, a) != NIL
    ensures var t := Counted(s, tid, a);
            0 <= t && t in s.objs && SameButCount(s, Next(s, tid, a), t)
            && (Next(s, tid, a).objs[t].refCount == (s.objs[t].refCount + 1) % 256
                || Next(s, tid, a).objs[t].refCount == (s.objs[t].refCount + 255) % 256)
  {
    hide PushNode, LinkNode, UnlinkNode;
  }

  lemma CountsInMemory(r: Memory, s: Store, tid: Tid, a: Action)
    requires Enabled(s, tid, a) && Represents(r, s) && Counted(s, tid, a) != NIL
    requires Counted(s, tid, a) as int in s.objs
    requires Agrees(r.m, s, Counted(s, tid, a))
    requires Counted(s, tid, a) in Next(s, tid, a).objs
    ensures var t := Counted(s, tid, a);
            Writes(r, s, tid, a) == r.(m := r.m[t := r.m[t].(refCount := Next(s, tid, a).objs[t].refCount)])
  {
    hide PushNode, LinkNode, UnlinkNode, ChainMirror, ListMirror;
  }

  // ----- steps that write nothing -----

  predicate Quiet(s: Store, tid: Tid, a: Action)
    requires Enabled(s, tid, a)
  {
    match a
    case BeginFind(_, _) => true
    case BeginRemove(_) => true
    case Acquire => true
    case Spin => true
    case Pass => true
    case EndOfChain => true
    case Release => true
    case BeginWheelRemove(_) => true
    case ReadWheel => true
    case UnlinkWheel => s.objs[s.threads[tid].refs[s.threads[tid].pc.x]].wheel >= NO_WHEEL
    case _ => false
  }

  lemma QuietStep(r: Memory, s: Store, tid: Tid, a: Action)
    requires Enabled(s, tid, a) && Represents(r, s) && Quiet(s, tid, a)
    ensures Represents(Writes(r, s, tid, a), Next(s, tid, a))
  {
    hide ChainMirror, ListMirror, PushNode, HitNode, LinkNode, UnlinkNode, LinkMem, UnlinkMem;
    if a.UnlinkWheel? { assert Agrees(r.m, s, s.threads[tid].refs[s.threads[tid].pc.x]); }
    NothingWritten(r, s, Next(s, tid, a));
  }

  // ----- allocation, and the wheel mark of an owned timer -----

  /** A write to a node that is in no list. */
  lemma UnlistedWritten(r: Memory, s: Store, s': Store, t: Ptr, o: TmrNode)
    requires Represents(r, s) && t < |r.m| && t in s'.objs && Agrees(r.m[t := o], s', t)
    requires s'.chains == s.chains && s'.wheels == s.wheels && s'.objs.Keys == s.objs.Keys + {t}
    requires forall p :: p in s.objs && p != t ==> s'.objs[p] == s.objs[p]
    requires forall key :: key in s.wheels ==> t !in s.wheels[key]
    requires (o.id == r.m[t].id && o.mnext == r.m[t].mnext) || forall h :: 0 <= h < |s.chains| ==> t !in s.chains[h]
    ensures Represents(r.(m := r.m[t := o]), s')
  {
    forall h | 0 <= h < |s.chains|
      ensures ChainList(r.m[t := o], s.chains[h], h, |s.chains|)
    {
      assert ChainList(r.m, s.chains[h], h, |s.chains|);
    }
    forall key | key in s.wheels
      ensures ListMirror(r.m[t := o], s.wheels[key], key, s'.objs.Keys)
    {
      ListFrame(r.m, r.m[t := o], s.wheels[key], key, s.objs.Keys);
    }
    forall p | p in s'.objs
      ensures Agrees(r.m[t := o], s', p)
    {
      if p != t { assert Agrees(r.m, s, p); }
    }
  }

  lemma NewStep(r: Memory, s: Store, tid: Tid, p: Ptr, id: nat)
    requires Inv(s) && Enabled(s, tid, New(p, id)) && Represents(r, s) && p < |r.m|
    ensures Represents(Writes(r, s, tid, New(p, id)), Next(s, tid, New(p, id)))
  {
    hide PcOk, LocksOk, ExclusionOk, CountOk, WheelFieldOk, ChainMirror, ListMirror;
    UnlistedWritten(r, s, Next(s, tid, New(p, id)), p, TmrNode(id, NIL, NIL, NIL, 0, 0, 0, 0));
  }

  lemma MarkStep(r: Memory, s: Store, tid: Tid, a: Action)
    requires Inv(s) && Enabled(s, tid, a) && Represents(r, s) && (a.InitWheel? || a.SetWheel?)
    ensures Represents(Writes(r, s, tid, a), Next(s, tid, a))
  {
    hide PcOk, LocksOk, ChainsOk, WheelsOk, ExclusionOk, CountOk, WheelFieldOk, RoleOk, ChainMirror, ListMirror;
    var pc := s.threads[tid].pc;
    RoleOfThread(s, tid);
    OwnedIsInNoList(s, tid, pc.t);
    assert Agrees(r.m, s, pc.t);
    UnlistedWritten(r, s, Next(s, tid, a), pc.t, r.m[pc.t].(wheel := if a.InitWheel? then NO_WHEEL else pc.w));
  }

  // ----- chains -----

  /** The chains changed in memory and state alike; slot lists and fields stay. */
  lemma ChainsWritten(r: Memory, r': Memory, s: Store, s': Store)
    requires Represents(r, s) && ChainMirror(r'.m, r'.heads, s'.chains) && r'.slots == r.slots
    requires s'.wheels == s.wheels && s'.objs.Keys == s.objs.Keys && |r'.m| == |r.m|
    requires forall p :: p in s.objs ==>
               s'.objs[p].id == s.objs[p].id && s'.objs[p].refCount == s.objs[p].refCount
               && s'.objs[p].wheel == s.objs[p].wheel && s'.objs[p].slot == s.objs[p].slot
    requires forall t :: 0 <= t < |r.m| ==> r'.m[t] == r.m[t].(mnext := r'.m[t].mnext)
    ensures Represents(r', s')
  {
    hide ChainMirror;
    forall key | key in s.wheels
      ensures ListMirror(r'.m, s.wheels[key], key, s.objs.Keys)
    {
      ListFrame(r.m, r'.m, s.wheels[key], key, s.objs.Keys);
    }
    forall p | p in s'.objs
      ensures Agrees(r'.m, s', p)
    {
      assert Agrees(r.m, s, p);
    }
  }

  lemma PushStep(r: Memory, s: Store, tid: Tid)
    requires Inv(s) && Enabled(s, tid, Push) && Represents(r, s)
    ensures Represents(Writes(r, s, tid, Push), Next(s, tid, Push))
  {
    hide PcOk, LocksOk, ChainsOk, WheelsOk, ExclusionOk, CountOk, WheelFieldOk, RoleOk, ChainMirror, ListMirror;
    var t := s.threads[tid].pc.task.t;
    PushFacts(s, tid);
    assert Agrees(r.m, s, t);
    HeadsMatch(r, s);
    PushMirrors(r.m, r.heads, s.chains, t, ChainOf(s, s.objs[t].id));
    ChainsWritten(r, Writes(r, s, tid, Push), s, Next(s, tid, Push));
  }

  lemma HeadsMatch(r: Memory, s: Store)
    requires Represents(r, s)
    ensures |r.heads| == |s.chains| > 0
    ensures forall h :: 0 <= h < |s.chains| ==>
              r.heads[h] == NodeAtOrNil(s.chains[h], 0) && ChainList(r.m, s.chains[h], h, |s.chains|)
  {}

  /** The bypass write, through the pointers the walk holds, is the cut of `StoreMemory`. */
  lemma BypassCuts(r: Memory, q: seq<nat>, h: nat, k: nat, n: nat)
    requires n > 0 && ChainList(r.m, q, h, n) && k < |q| && h < |r.heads| && r.heads[h] == NodeAtOrNil(q, 0)
    requires forall j :: 0 <= j < |q| ==> q[j] < |r.m|
    ensures BypassWrites(r, h, NodeBefore(q, k), q[k])
            == r.(m := CutMem(r.m, q, k), heads := r.heads[h := NodeAtOrNil(Cut(q, k), 0)])
  {
    CutHead(q, k);
    hide Cut;
    assert r.m[q[k]].mnext == NodeAtOrNil(q, k + 1);
  }

  lemma BypassStep(r: Memory, s: Store, tid: Tid)
    requires Inv(s) && Enabled(s, tid, Hit) && Represents(r, s) && s.threads[tid].pc.task.Remove?
    ensures Represents(Writes(r, s, tid, Hit), Next(s, tid, Hit))
  {
    hide Inv, ChainMirror, ListMirror, BypassWrites, Cut, CutMem, ChainList;
    var pc := s.threads[tid].pc;
    var h := TaskChain(s, pc.task);
    HeadsMatch(r, s);
    CutMirrors(r.m, r.heads, s.chains, h, pc.k);
    BypassCuts(r, s.chains[h], h, pc.k, |s.chains|);
    CutTouchesNext(r.m, s.chains[h], pc.k);
    ChainsWritten(r, Writes(r, s, tid, Hit), s, Next(s, tid, Hit));
  }

  lemma CutTouchesNext(m: seq<TmrNode>, q: seq<nat>, k: nat)
    requires k < |q| && forall j :: 0 <= j < |q| ==> q[j] < |m|
    ensures forall t :: 0 <= t < |m| ==> CutMem(m, q, k)[t] == m[t].(mnext := CutMem(m, q, k)[t].mnext)
  {}

  // ----- wheel slots -----

  lemma OtherSlotKept(m: seq<TmrNode>, m': seq<TmrNode>, q: seq<nat>, k: Slot, nodes: set<nat>, key: Slot, t: nat)
    requires ListMirror(m, q, k, nodes) && k != key && t !in q && |m'| == |m|
    requires forall p :: 0 <= p < |m| && p != t && KeyOf(m[p]) != key ==> m'[p] == m[p]
    ensures ListMirror(m', q, k, nodes)
  {
    forall j | 0 <= j < |q|
      ensures m'[q[j]] == m[q[j]]
    {
      assert LinkedAs(m[q[j]], q, j, k);
    }
    ListFrame(m, m', q, k, nodes);
  }

  /** One slot list changed in memory and state alike, around timer `t`. */
  lemma SlotWritten(r: Memory, r': Memory, s: Store, s': Store, key: Slot, q: seq<Ptr>, t: Ptr)
    requires Represents(r, s) && ListMirror(r'.m, q, key, s.objs.Keys) && key in s.wheels && t in s.objs
    requires s'.chains == s.chains && s'.wheels == s.wheels[key := q] && s'.objs.Keys == s.objs.Keys
    requires r'.slots == r.slots[key := NodeAtOrNil(q, 0)] && r'.heads == r.heads && SameChainFields(r.m, r'.m)
    requires forall k :: k in s.wheels && k != key ==> t !in s.wheels[k]
    requires forall p :: 0 <= p < |r.m| && p != t && KeyOf(r.m[p]) != key ==> r'.m[p] == r.m[p]
    requires forall p :: 0 <= p < |r.m| && p != t ==>
               r'.m[p].refCount == r.m[p].refCount && r'.m[p].wheel == r.m[p].wheel && r'.m[p].slot == r.m[p].slot
    requires Agrees(r'.m, s', t) && forall p :: p in s.objs && p != t ==> s'.objs[p] == s.objs[p]
    ensures Represents(r', s')
  {
    hide ListMirror, ChainMirror;
    ChainFrame(r.m, r'.m, r.heads, s.chains);
    forall k | k in s.wheels && k != key
      ensures ListMirror(r'.m, s.wheels[k], k, s.objs.Keys)
    {
      OtherSlotKept(r.m, r'.m, s.wheels[k], k, s.objs.Keys, key, t);
    }
    forall p | p in s'.objs
      ensures Agrees(r'.m, s', p)
    {
      if p != t { assert Agrees(r.m, s, p); }
    }
  }

  /** What linking writes where. */
  lemma LinkMemAt(m: seq<TmrNode>, t: nat, key: Slot, head: int, p: nat)
    requires t < |m| && p < |m| && (head == NIL || 0 <= head < |m|) && head != t
    ensures var o := LinkMem(m, t, key, head)[p];
            o == if p == t then m[t].(prev := NIL, next := head, wheel := key.w, slot := key.sl)
                 else if p == head then m[p].(prev := t) else m[p]
  {}

  lemma SlotHeadNode(r: Memory, s: Store, key: Slot)
    requires Represents(r, s) && key in s.wheels
    ensures key in r.slots && r.slots[key] == NodeAtOrNil(s.wheels[key], 0) && ListMirror(r.m, s.wheels[key], key, s.objs.Keys)
    ensures r.slots[key] == NIL || (0 <= r.slots[key] < |r.m| && KeyOf(r.m[r.slots[key]]) == key && r.slots[key] in s.wheels[key])
  {
    if s.wheels[key] != [] { assert LinkedAs(r.m[s.wheels[key][0]], s.wheels[key], 0, key); }
  }

  lemma LinkWritten(r: Memory, s: Store, s': Store, tid: Tid, t: Ptr, sl: nat, key: Slot)
    requires Represents(r, s) && t in s.objs && tid in s.threads && key == Slot(s.objs[t].wheel, sl) && key in s.wheels
    requires s' == LinkNode(s, tid, t, sl) && forall k :: k in s.wheels ==> t !in s.wheels[k]
    ensures t < |r.m| && Represents(LinkWrites(r, t, sl), s')
  {
    hide ChainMirror, ListMirror, LinkMem;
    assert Agrees(r.m, s, t);
    SlotHeadNode(r, s, key);
    LinkedList(r.m, s.wheels[key], s.objs.Keys, t, key);
    forall p: nat | p < |r.m|
      ensures LinkMem(r.m, t, key, r.slots[key])[p]
              == if p == t then r.m[t].(prev := NIL, next := r.slots[key], wheel := key.w, slot := key.sl)
                 else if p == r.slots[key] then r.m[p].(prev := t) else r.m[p]
    {
      LinkMemAt(r.m, t, key, r.slots[key], p);
    }
    SlotWritten(r, LinkWrites(r, t, sl), s, s', key, [t] + s.wheels[key], t);
  }

  lemma LinkStep(r: Memory, s: Store, tid: Tid)
    requires Inv(s) && Enabled(s, tid, LinkWheel) && Represents(r, s)
    ensures Represents(Writes(r, s, tid, LinkWheel), Next(s, tid, LinkWheel))
  {
    hide PcOk, LocksOk, ChainsOk, WheelsOk, ExclusionOk, CountOk, WheelFieldOk, RoleOk, Represents, LinkNode, LinkWrites;
    var t, sl := s.threads[tid].pc.t, s.threads[tid].pc.sl;
    RoleOfThread(s, tid);
    OwnedIsInNoList(s, tid, t);
    LinkWritten(r, s, Next(s, tid, LinkWheel), tid, t, sl, Slot(s.objs[t].wheel, sl));
  }

  lemma ListFacts(m: seq<TmrNode>, q: seq<nat>, key: Slot, nodes: set<nat>, j: nat)
    requires ListMirror(m, q, key, nodes) && j < |q|
    ensures NoDuplicates(q) && q[j] < |m| && KeyOf(m[q[j]]) == key && m[q[j]].next == NodeAtOrNil(q, j + 1)
  {
    assert LinkedAs(m[q[j]], q, j, key);
  }

  /** What unlinking node `j` of a slot list writes, and where the head of the slot points then. */
  lemma UnlinkedMemory(m: seq<TmrNode>, q: seq<nat>, key: Slot, nodes: set<nat>, j: nat)
    requires ListMirror(m, q, key, nodes) && j < |q|
    ensures Linked(m, q[j]) && KeyOf(m[q[j]]) == key && ListMirror(UnlinkMem(m, q[j]), Cut(q, j), key, nodes)
    ensures NodeAtOrNil(Cut(q, j), 0) == if q[0] == q[j] then m[q[j]].next else q[0]
    ensures SameChainFields(m, UnlinkMem(m, q[j]))
    ensures forall p :: 0 <= p < |m| && p != q[j] && KeyOf(m[p]) != key ==> UnlinkMem(m, q[j])[p] == m[p]
    ensures forall p :: 0 <= p < |m| && p != q[j] ==>
              var o := UnlinkMem(m, q[j])[p];
              o.refCount == m[p].refCount && o.wheel == m[p].wheel && o.slot == m[p].slot
    ensures UnlinkMem(m, q[j])[q[j]] == m[q[j]].(wheel := NO_WHEEL, next := NIL, prev := NIL)
  {
    hide UnlinkMem, Cut, ListMirror, NoDuplicates, LinkedAs;
    var t := q[j];
    UnlinkNeighbours(m, q, key, nodes, j);
    ListFacts(m, q, key, nodes, j);
    StoreMemory.UnlinkedList(m, q, key, nodes, j);
    SlotHead(q, j, t);
    forall p: nat | p < |m|
      ensures UnlinkMem(m, t)[p] ==
              if p == t then m[p].(wheel := NO_WHEEL, next := NIL, prev := NIL)
              else if p == m[t].next then m[p].(prev := m[t].prev)
              else if p == m[t].prev then m[p].(next := m[t].next)
              else m[p]
    {
      UnlinkMemAt(m, t, p);
    }
  }

  lemma UnlinkWritten(r: Memory, s: Store, s': Store, tid: Tid, t: Ptr)
    requires Represents(r, s) && tid in s.threads && InWheel(s, t) && WheelsOk(s)
    requires s' == UnlinkNode(s, tid, t, s.objs[t].wheel)
    ensures t < |r.m| && Represents(UnlinkWrites(r, t), s')
  {
    hide ChainMirror, ListMirror, UnlinkMem, Cut, IndexOf, Linked, WheelsOk, SameChainFields;
    var key := Slot(s.objs[t].wheel, s.objs[t].slot);
    var j := IndexOf(s.wheels[key], t);
    assert Agrees(r.m, s, t);
    IndexOfFinds(s.wheels[key], t);
    StoreWheelSteps.UnlinkedList(s, t);
    SlotHeadNode(r, s, key);
    UnlinkedMemory(r.m, s.wheels[key], key, s.objs.Keys, j);
    SlotWritten(r, UnlinkWrites(r, t), s, s', key, Cut(s.wheels[key], j), t);
  }

  lemma UnlinkStep(r: Memory, s: Store, tid: Tid)
    requires Inv(s) && Enabled(s, tid, UnlinkWheel) && Represents(r, s) && !Quiet(s, tid, UnlinkWheel)
    ensures Represents(Writes(r, s, tid, UnlinkWheel), Next(s, tid, UnlinkWheel))
  {
    hide PcOk, LocksOk, ChainsOk, WheelsOk, ExclusionOk, CountOk, WheelFieldOk, RoleOk, Represents, UnlinkNode, UnlinkWrites, InWheel;
    var t := s.threads[tid].refs[s.threads[tid].pc.x];
    UnlinkFinds(s, tid);
    UnlinkRuns(s, tid, t);
    UnlinkWritten(r, s, Next(s, tid, UnlinkWheel), tid, t);
  }

  // ----- every interleaving -----

  /** The allocator returns nodes that exist. */
  predicate HasRoom(a: Action, size: nat) {
    a.New? ==> a.p < size
  }

  /** A step whose writes hit a represented memory leaves the memory of the next state. */
  lemma StepOnMemory(r: Memory, s: Store, tid: Tid, a: Action)
    requires Inv(s) && Enabled(s, tid, a) && Represents(r, s) && HasRoom(a, |r.m|)
    ensures Represents(Writes(r, s, tid, a), Next(s, tid, a))
  {
    hide Inv, Represents;
    if Quiet(s, tid, a) {
      QuietStep(r, s, tid, a);
    } else {
      match a
      case New(p, id) => NewStep(r, s, tid, p, id);
      case InitWheel => MarkStep(r, s, tid, a);
      case SetWheel => MarkStep(r, s, tid, a);
      case Push => PushStep(r, s, tid);
      case Hit =>
        if s.threads[tid].pc.task.Remove? { BypassStep(r, s, tid); } else { CountingStep(r, s, tid, a); }
      case LinkWheel => LinkStep(r, s, tid);
      case UnlinkWheel => UnlinkStep(r, s, tid);
      case _ => CountingStep(r, s, tid, a);
    }
  }

  lemma WritesKeepSize(r: Memory, s: Store, tid: Tid, a: Action)
    requires Enabled(s, tid, a) && Represents(r, s)
    ensures |Writes(r, s, tid, a).m| == |r.m|
  {
    hide ChainMirror, ListMirror;
  }

  /** The memory after a run of any number of threads: it spells out the state the run leads to. */
  ghost function MemoryAfter(r: Memory, s: Store, run: seq<Step>): (r': Memory)
    requires Inv(s) && Legal(s, run) && Represents(r, s)
    requires forall k :: 0 <= k < |run| ==> HasRoom(run[k].a, |r.m|)
    ensures Represents(r', After(s, run))
    decreases |run|
  {
    hide Inv, Represents, Next, Writes, Enabled, StepIsSafe;
    if run == [] then r
    else
      StepOnMemory(r, s, run[0].tid, run[0].a);
      StepKeepsInv(s, run[0].tid, run[0].a);
      WritesKeepSize(r, s, run[0].tid, run[0].a);
      assert forall k :: 0 <= k < |run[1..]| ==> run[1..][k] == run[k + 1];
      MemoryAfter(Writes(r, s, run[0].tid, run[0].a), Next(s, run[0].tid, run[0].a), run[1..])
  }

  /** The initialised memory: every list head is the null pointer. */
  lemma InitialMemory(r: Memory, s: Store)
    requires Initial(s) && |r.heads| == |s.chains| && r.slots.Keys == s.wheels.Keys
    requires (forall h :: 0 <= h < |r.heads| ==> r.heads[h] == NIL) && forall key :: key in r.slots ==> r.slots[key] == NIL
    ensures Represents(r, s)
  {}

  /**
   * Lists in memory over whole runs: after every interleaving of any number of threads,
   * from the initialised store on, every chain and every wheel slot is a well-formed
   * list, linked both ways in the slots, of exactly the timers that the state has there.
   */
  lemma EveryReachableListIsWellFormed(r: Memory, s: Store, run: seq<Step>)
    requires Initial(s) && |r.heads| == |s.chains| && r.slots.Keys == s.wheels.Keys
    requires (forall h :: 0 <= h < |r.heads| ==> r.heads[h] == NIL) && forall key :: key in r.slots ==> r.slots[key] == NIL
    requires Legal(s, run) && forall k :: 0 <= k < |run| ==> HasRoom(run[k].a, |r.m|)
    ensures Inv(s) && Represents(r, s)
    ensures var r', s' := MemoryAfter(r, s, run), After(s, run);
            && (forall h :: 0 <= h < |s'.chains| ==>
                  h < |r'.heads| && r'.heads[h] == NodeAtOrNil(s'.chains[h], 0)
                  && ChainList(r'.m, s'.chains[h], h, |s'.chains|))
            && (forall key :: key in s'.wheels ==>
                  key in r'.slots && r'.slots[key] == NodeAtOrNil(s'.wheels[key], 0)
                  && ListMirror(r'.m, s'.wheels[key], key, s'.objs.Keys))
  {
    InitialInv(s);
    InitialMemory(r, s);
    hide Inv, Initial, Legal, After, ListMirror, ChainList;
  }

  /** The pointer a walking thread has in hand. */
  function Cursor(s: Store, pc: Pc): int
    requires |s.chains| > 0 && pc.Walk?
  {
    NodeAtOrNil(s.chains[TaskChain(s, pc.task)], pc.k)
  }

  /** The walk of `findTimer` and `removeTimer` follows the pointers: from the head, by `mnext`, to NULL. */
  lemma CursorFollowsPointers(r: Memory, s: Store, tid: Tid, a: Action)
    requires Enabled(s, tid, a) && Represents(r, s)
    requires a.Acquire? || a.Pass? || a.Hit? || a.EndOfChain?
    ensures var pc, pc' := s.threads[tid].pc, Next(s, tid, a).threads[tid].pc;
            && (a.Acquire? ==> pc'.Walk? && Cursor(Next(s, tid, a), pc') == r.heads[TaskChain(s, pc.task)])
            && (a.Pass? || a.Hit? ==> Cursor(s, pc) == NodeAt(s, pc) < |r.m|)
            && (a.Pass? ==> pc'.Walk? && Cursor(Next(s, tid, a), pc') == r.m[NodeAt(s, pc)].mnext)
            && (a.EndOfChain? ==> Cursor(s, pc) == NIL)
  {
    HeadsMatch(r, s);
    var pc := s.threads[tid].pc;
    var h := TaskChain(s, pc.task);
    assert ChainList(r.m, s.chains[h], h, |s.chains|);
    hide SlotsMirror, NoDuplicates;
  }
}
