/**
 * The functions of `ttimer/timer.c` on memory, each called with no other thread inside the
 * chain or wheel it uses. `StoreOnMemory` shows that the pointer updates of these methods
 * represent the steps of `StoreModel` in every interleaving.
 */
module TimerTables {
  import opened Sequences
  import opened CInt
  import opened StoreModel
  import opened StoreMemory
  import opened WheelChoice

  /** `time_wheel_t` without its list heads. */
  datatype WheelState = WheelState(nextScanAt: int, index: nat)

  function AddRefNode(o: TmrNode): TmrNode {
    o.(refCount := (o.refCount + 1) % 256)
  }

  function DecRefNode(o: TmrNode): TmrNode {
    o.(refCount := (o.refCount + 255) % 256)
  }

  /** The memory after one reference to `t` was taken. */
  function RefTaken(m: seq<TmrNode>, t: nat): seq<TmrNode>
    requires t < |m|
  {
    m[t := AddRefNode(m[t])]
  }

  function RefDropped(m: seq<TmrNode>, t: nat): seq<TmrNode>
    requires t < |m|
  {
    m[t := DecRefNode(m[t])]
  }

  /** The memory after `t` was unlinked from its slot and the wheel's reference dropped. */
  function Detached(m: seq<TmrNode>, t: nat): (r: seq<TmrNode>)
    ensures |r| == |m|
  {
    if Linked(m, t) then RefDropped(UnlinkMem(m, t), t) else m
  }

  /** The memory after a reference to `t` was taken and its expiry set. */
  function Stamped(m: seq<TmrNode>, t: nat, expireAt: int): (r: seq<TmrNode>)
    requires t < |m|
    ensures |r| == |m|
  {
    m[t := AddRefNode(m[t]).(expireAt := expireAt)]
  }

  /** The chain that an id hashes to, as the timers' numbers. */
  function ChainFor(chains: seq<seq<nat>>, id: nat): seq<nat>
    requires |chains| > 0
  {
    chains[id % |chains|]
  }

  /** Every node of a chain was passed to `addTimer`. */
  ghost predicate ChainsAdded(chains: seq<seq<nat>>, added: set<nat>) {
    forall h, t :: 0 <= h < |chains| && t in chains[h] ==> t in added
  }

  /** Every slot of every wheel has a list. */
  ghost predicate SlotsExist(lists: map<Slot, seq<nat>>) {
    forall w, sl :: 0 <= w < |WHEELS| && 0 <= sl < WHEELS[w].size ==> Slot(w, sl) in lists
  }

  function AllSlots(): (r: set<Slot>)
    ensures forall w: nat, sl: nat :: Slot(w, sl) in r <==> w < |WHEELS| && sl < WHEELS[w].size
  {
    set w: nat, sl: nat | w < |WHEELS| && sl < WHEELS[w].size :: Slot(w, sl)
  }

  lemma SlotsRemain(lists: map<Slot, seq<nat>>, key: Slot, q: seq<nat>)
    requires SlotsExist(lists)
    ensures SlotsExist(lists[key := q])
  {}

  lemma FewerNodes(chains: seq<seq<nat>>, added: set<nat>, h: nat, q: seq<nat>)
    requires ChainsAdded(chains, added) && h < |chains| && forall t :: t in q ==> t in chains[h]
    ensures ChainsAdded(chains[h := q], added)
  {}

  lemma MoreNodes(chains: seq<seq<nat>>, added: set<nat>, h: nat, t: nat)
    requires ChainsAdded(chains, added) && h < |chains|
    ensures ChainsAdded(chains[h := [t] + chains[h]], added + {t})
  {}

  class TimerStore {
    const mem: array<TmrNode>
    const heads: array<int>
    var slots: map<Slot, int>
    var wheels: seq<WheelState>
    ghost var chains: seq<seq<nat>>
    ghost var lists: map<Slot, seq<nat>>
    ghost var added: set<nat>

    ghost predicate Valid()
      reads this, mem, heads
    {
      && ChainMirror(mem[..], heads[..], chains)
      && WheelMirror(mem[..], slots, lists, added)
      && ChainsAdded(chains, added)
      && |wheels| == |WHEELS|
      && SlotsExist(lists)
    }

    /** An initialised store: `nodes` are the timers that callers will allocate. */
    constructor (chainCount: nat, nodes: seq<TmrNode>, wheels: seq<WheelState>)
      requires chainCount > 0 && |wheels| == |WHEELS|
      ensures Valid() && fresh(mem) && fresh(heads)
      ensures mem[..] == nodes && |chains| == chainCount && added == {}
      ensures (forall h :: 0 <= h < chainCount ==> chains[h] == []) && forall key :: key in lists ==> lists[key] == []
    {
      mem := new TmrNode[|nodes|](i requires 0 <= i < |nodes| => nodes[i]);
      heads := new int[chainCount](_ => NIL);
      slots := map key | key in AllSlots() :: NIL;
      this.wheels := wheels;
      chains := seq(chainCount, _ => []);
      lists := map key | key in AllSlots() :: [];
      added := {};
    }

    lemma HeadCount()
      requires Valid()
      ensures heads.Length == |chains| > 0
    {
      assert |heads[..]| == heads.Length;
    }

    /** Adds a timer that is in no chain and no wheel, for the first time or again. */
    method AddTimer(t: nat)
      requires Valid() && t < mem.Length && t !in ChainFor(chains, mem[t].id)
      requires t in added ==> mem[t].wheel == NO_WHEEL
      modifies this, mem, heads
      ensures Valid()
      ensures var h := old(mem[t].id) % |chains|;
              chains == old(chains)[h := [t] + old(chains)[h]]
              && mem[..] == old(mem[..])[t := AddRefNode(old(mem[t])).(wheel := NO_WHEEL, mnext := old(heads[h]))]
      ensures added == old(added) + {t} && lists == old(lists) && slots == old(slots) && wheels == old(wheels)
    {
      hide ChainMirror, WheelMirror, ChainsAdded, SlotsExist;
      HeadCount();
      mem[t] := AddRefNode(mem[t]);
      mem[t] := mem[t].(wheel := NO_WHEEL);
      var idx := mem[t].id % heads.Length;
      ghost var m1 := mem[..];
      ChainFrame(old(mem[..]), m1, heads[..], chains);
      AddedMirrors(old(mem[..]), slots, lists, added, t, mem[t]);
      assert m1 == old(mem[..])[t := mem[t]];
      MoreNodes(chains, added, idx, t);
      PushMirrors(m1, heads[..], chains, t, idx);
      mem[t] := mem[t].(mnext := heads[idx]);
      heads[idx] := t;
      chains := chains[idx := [t] + chains[idx]];
      added := added + {t};
      WheelFrame(m1, mem[..], slots, lists, added);
    }

    /** The nodes of a chain, as facts to cite. */
    lemma ChainNodes(h: nat)
      requires Valid() && h < |chains|
      ensures |heads[..]| == |chains| && heads[h] == NodeAtOrNil(chains[h], 0)
      ensures ChainList(mem[..], chains[h], h, |chains|)
      ensures forall j :: 0 <= j < |chains[h]| ==>
                chains[h][j] < mem.Length && mem[chains[h][j]].mnext == NodeAtOrNil(chains[h], j + 1)
    {
      NodesExist(mem[..], chains[h], h, |chains|);
    }

    /** Rewriting fields other than links and names keeps every list. */
    lemma TouchKeepsTables(before: seq<TmrNode>, t: nat, o: TmrNode)
      requires ChainMirror(before, heads[..], chains) && WheelMirror(before, slots, lists, added)
      requires t < |before| && o == before[t].(refCount := o.refCount, expireAt := o.expireAt)
      ensures ChainMirror(before[t := o], heads[..], chains) && WheelMirror(before[t := o], slots, lists, added)
    {
      ChainFrame(before, before[t := o], heads[..], chains);
      WheelFrame(before, before[t := o], slots, lists, added);
    }

    /** `timerDecRef`; `freed` says whether it called `free`. */
    method TimerDecRef(t: nat) returns (freed: bool)
      requires Valid() && t < mem.Length
      modifies mem
      ensures Valid() && mem[..] == RefDropped(old(mem[..]), t)
      ensures freed <==> mem[t].refCount == 0
    {
      hide ChainMirror, WheelMirror, ChainsAdded, SlotsExist;
      TouchKeepsTables(mem[..], t, DecRefNode(mem[t]));
      mem[t] := DecRefNode(mem[t]);
      assert mem[..] == RefDropped(old(mem[..]), t);
      freed := mem[t].refCount == 0;
    }

    /** `timerAddRef`. */
    method TimerAddRef(t: nat)
      requires Valid() && t < mem.Length
      modifies mem
      ensures Valid() && mem[..] == RefTaken(old(mem[..]), t)
    {
      hide ChainMirror, WheelMirror, ChainsAdded, SlotsExist;
      TouchKeepsTables(mem[..], t, AddRefNode(mem[t]));
      mem[t] := AddRefNode(mem[t]);
      assert mem[..] == RefTaken(old(mem[..]), t);
    }

    /** The walk of `findTimer` along `mnext`, from `timer` at the head of its chain. */
    method WalkFor(id: nat, first: int, ghost q: seq<nat>) returns (timer: int)
      requires first == NodeAtOrNil(q, 0)
      requires forall j :: 0 <= j < |q| ==> q[j] < mem.Length && mem[q[j]].mnext == NodeAtOrNil(q, j + 1)
      ensures timer == NodeAtOrNil(q, FirstWith(mem[..], q, id))
    {
      ghost var k := 0;
      timer := first;
      while timer != NIL && mem[timer].id != id
        invariant k <= |q| && timer == NodeAtOrNil(q, k)
        invariant forall j :: 0 <= j < k ==> mem[q[j]].id != id
        decreases |q| - k
      {
        timer := mem[timer].mnext;
        k := k + 1;
      }
      FirstWithUnique(mem[..], q, id, k);
    }

    method FindTimer(id: nat) returns (timer: int)
      requires Valid()
      modifies mem
      ensures Valid()
      ensures id == 0 ==> timer == NIL && mem[..] == old(mem[..])
      ensures id > 0 ==>
                var q := ChainFor(chains, id);
                (forall j :: 0 <= j < |q| ==> q[j] < mem.Length)
                && var k := FirstWith(old(mem[..]), q, id);
                   timer == NodeAtOrNil(q, k)
                   && mem[..] == if k < |q| then RefTaken(old(mem[..]), q[k]) else old(mem[..])
    {
      hide ChainMirror, WheelMirror, ChainsAdded, SlotsExist, ChainList, RefTaken;
      timer := NIL;
      if id > 0 {
        HeadCount();
        var idx := id % heads.Length;
        ChainNodes(idx);
        timer := WalkFor(id, heads[idx], chains[idx]);
        if timer != NIL { TimerAddRef(timer); }
      }
    }

    /** The pointer writes of `removeTimer` that unlink node `k` of chain `idx`, after `prev`. */
    method CutOut(prev: int, p: nat, idx: nat, ghost q: seq<nat>, ghost k: nat)
      requires idx < heads.Length && k < |q| && p == q[k] && prev == NodeBefore(q, k)
      requires forall j :: 0 <= j < |q| ==> q[j] < mem.Length
      requires heads[idx] == NodeAtOrNil(q, 0) && mem[p].mnext == NodeAtOrNil(q, k + 1)
      modifies mem, heads
      ensures mem[..] == CutMem(old(mem[..]), q, k)
      ensures heads[..] == old(heads[..])[idx := NodeAtOrNil(Cut(q, k), 0)]
    {
      CutHead(q, k);
      hide Cut;
      if prev == NIL {
        heads[idx] := mem[p].mnext;
      } else {
        mem[prev] := mem[prev].(mnext := mem[p].mnext);
      }
    }

    /** What `removeTimer` does to the node it found. */
    method Bypass(prev: int, p: nat, idx: nat, ghost k: nat) returns (freed: bool)
      requires Valid() && idx < |chains| && k < |chains[idx]|
      requires p == chains[idx][k] && prev == NodeBefore(chains[idx], k)
      modifies this`chains, mem, heads
      ensures Valid() && chains == old(chains)[idx := Cut(old(chains)[idx], k)]
      ensures forall j :: 0 <= j < |old(chains)[idx]| ==> old(chains)[idx][j] < mem.Length
      ensures mem[..] == RefDropped(CutMem(old(mem[..]), old(chains)[idx], k), p)
      ensures freed <==> mem[p].refCount == 0
    {
      ghost var q := chains[idx];
      ChainNodes(idx);
      CutMirrors(mem[..], heads[..], chains, idx, k);
      CutHead(q, k);
      FewerNodes(chains, added, idx, Cut(q, k));
      hide ChainMirror, WheelMirror, CutMem, Cut, NodeBefore, NodeAtOrNil, ChainsAdded, SlotsExist;
      CutOut(prev, p, idx, q, k);
      ghost var m1 := mem[..];
      chains := chains[idx := Cut(q, k)];
      assert WheelMirror(m1, slots, lists, added) by {
        CutIsInvisible(old(mem[..]), q, k);
        WheelFrame(old(mem[..]), m1, slots, lists, added);
      }
      freed := TimerDecRef(p);
    }

    /** `freed` says whether the map's reference was the last one. */
    method RemoveTimer(id: nat) returns (p: int, freed: bool)
      requires Valid()
      modifies this`chains, mem, heads
      ensures Valid()
      ensures var q := ChainFor(old(chains), id);
              (forall j :: 0 <= j < |q| ==> q[j] < mem.Length)
              && var k := FirstWith(old(mem[..]), q, id);
                 p == NodeAtOrNil(q, k)
                 && if k == |q| then chains == old(chains) && mem[..] == old(mem[..]) && !freed
                    else chains == old(chains)[id % |old(chains)| := Cut(q, k)]
                         && mem[..] == RefDropped(CutMem(old(mem[..]), q, k), q[k])
                         && (freed <==> mem[p].refCount == 0)
    {
      var prev := NIL;
      var idx := id % heads.Length;
      ghost var q, k := chains[idx], 0;
      ChainNodes(idx);
      p := heads[idx];
      freed := false;
      while p != NIL
        invariant mem[..] == old(mem[..]) && heads[..] == old(heads[..]) && chains == old(chains)
        invariant k <= |q| && p == NodeAtOrNil(q, k) && prev == NodeBefore(q, k) && !freed
        invariant forall j :: 0 <= j < k ==> mem[q[j]].id != id
        decreases |q| - k
      {
        if mem[p].id == id {
          FirstWithUnique(mem[..], q, id, k);
          freed := Bypass(prev, p, idx, k);
          return;
        }
        prev := p;
        p := mem[p].mnext;
        k := k + 1;
      }
      FirstWithUnique(mem[..], q, id, k);
    }

    /** The place in its slot list of a timer that names a wheel. */
    lemma SlotPlace(t: nat)
      requires Valid() && t in added && t < mem.Length && mem[t].wheel < NO_WHEEL
      ensures var key := KeyOf(mem[t]);
              key in lists && key in slots && t in lists[key] && slots[key] == NodeAtOrNil(lists[key], 0)
              && ListMirror(mem[..], lists[key], key, added)
    {
      hide ChainMirror;
      assert NamesItsSlot(mem[..], lists, t);
      HeadExists(mem[..], slots, lists, added, KeyOf(mem[t]));
    }

    /** The slot for a timer due `delay` from `now`, by the arithmetic of `WheelChoice`. */
    ghost function TargetSlot(delay: nat, now: int): Slot
      reads this`wheels
      requires |wheels| == |WHEELS|
    {
      var w := ChosenWheel(delay);
      Slot(w, SlotOf(wheels[w].index, ScansAhead(now + delay, wheels[w].nextScanAt, WHEELS[w].resolution), WHEELS[w].size))
    }

    /** What that slot is, from the wheel table and the state of the wheel. */
    lemma TargetMeans(delay: nat, now: int)
      requires |wheels| == |WHEELS| && delay < U32
      ensures var key := TargetSlot(delay, now);
              && key.w < |WHEELS|
              && (delay < WHEELS[key.w].resolution * WHEELS[key.w].size || key.w == |WHEELS| - 1)
              && (forall j :: 0 <= j < key.w ==> WHEELS[j].resolution * WHEELS[j].size <= delay)
              && SlotFits(key, now + delay)
    {
      var w := ChosenWheel(delay);
      ChosenIsFinest(delay);
      var expireAt, at, r := now + delay, wheels[w].nextScanAt, WHEELS[w].resolution;
      forall k: nat | FirstScan(expireAt, at, r, k) && expireAt - at + r - 1 < U32
        ensures TargetSlot(delay, now).sl == (wheels[w].index + k + 1) % WHEELS[w].size
      {
        SlotOfFirstScan(wheels[w].index, expireAt, at, w, k);
      }
      if U32 <= now + delay - wheels[w].nextScanAt + WHEELS[w].resolution - 1 {
        SlotOfWrappedOffset(wheels[w].index, now + delay, wheels[w].nextScanAt, w);
      }
    }

    /**
     * `key` is the slot for `expireAt` on its wheel: one past the wheel's position, plus
     * the scans up to the first at or after the expiry; if the rounded offset does not
     * fit 32 bits, plus what the wrapped offset makes of it.
     */
    ghost predicate SlotFits(key: Slot, expireAt: int)
      requires |wheels| == |WHEELS| && key.w < |WHEELS|
      reads this`wheels
    {
      var at, index, r, n := wheels[key.w].nextScanAt, wheels[key.w].index, WHEELS[key.w].resolution, WHEELS[key.w].size;
      && (forall k: nat :: FirstScan(expireAt, at, r, k) && expireAt - at + r - 1 < 0x1_0000_0000 ==>
            key.sl == (index + k + 1) % n)
      && (0x1_0000_0000 <= expireAt - at + r - 1 ==>
            key.sl == (index + ((expireAt - at) % 0x1_0000_0000 + r - 1) % 0x1_0000_0000 / r + 1) % n)
    }

    lemma TargetExists(delay: nat, now: int)
      requires Valid()
      ensures TargetSlot(delay, now) in lists
    {}

    /** The slot arithmetic of `addToWheel`, in `uint32_t`. */
    method ComputeSlot(w: nat, ghost delay: nat, ghost now: int, expireAt: int) returns (slot: nat)
      requires |wheels| == |WHEELS| && w == ChosenWheel(delay) && expireAt == now + delay
      ensures Slot(w, slot) == TargetSlot(delay, now)
    {
      var idx := 0;
      if expireAt > wheels[w].nextScanAt {
        var ahead := (expireAt - wheels[w].nextScanAt) % U32;
        idx := (ahead + WHEELS[w].resolution - 1) % U32 / WHEELS[w].resolution;
      }
      slot := (wheels[w].index + idx + 1) % U32 % WHEELS[w].size;
    }

    /** The writes to the timer and its slot; `timer->wheel` gets its value here with the other links. */
    method LinkInto(t: nat, w: nat, slot: nat)
      requires Valid() && t in added && t < mem.Length && mem[t].wheel == NO_WHEEL && Slot(w, slot) in lists
      modifies this`slots, this`lists, mem
      ensures Valid()
      ensures lists == old(lists)[Slot(w, slot) := [t] + old(lists)[Slot(w, slot)]]
      ensures var head := NodeAtOrNil(old(lists)[Slot(w, slot)], 0);
              (head == NIL || 0 <= head < mem.Length) && mem[..] == LinkMem(old(mem[..]), t, Slot(w, slot), head)
    {
      hide ChainMirror, WheelMirror, ChainsAdded, SlotsExist;
      ghost var key, m0 := Slot(w, slot), mem[..];
      LinkMirrors(m0, slots, lists, added, t, key);
      HeadExists(m0, slots, lists, added, key);
      SlotsRemain(lists, key, [t] + lists[key]);
      var p := slots[Slot(w, slot)];
      WriteLinks(t, w, slot, p);
      slots := slots[Slot(w, slot) := t];
      lists := lists[key := [t] + lists[key]];
      ChainFrame(m0, mem[..], heads[..], chains);
    }

    method WriteLinks(t: nat, w: nat, slot: nat, p: int)
      requires t < mem.Length && (p == NIL || 0 <= p < mem.Length)
      modifies mem
      ensures mem[..] == LinkMem(old(mem[..]), t, Slot(w, slot), p)
    {
      mem[t] := mem[t].(wheel := w);
      mem[t] := mem[t].(prev := NIL);
      mem[t] := mem[t].(slot := slot);
      mem[t] := mem[t].(next := p);
      if p != NIL {
        mem[p] := mem[p].(prev := t);
      }
    }

    /** `now` is the current time; `delay` and the scan distance are `uint32_t`. */
    method AddToWheel(t: nat, delay: nat, now: int)
      requires Valid() && t in added && t < mem.Length && mem[t].wheel == NO_WHEEL && delay < U32
      modifies this`slots, this`lists, mem
      ensures Valid()
      ensures mem[t].expireAt == now + delay && mem[t].refCount == (old(mem[t].refCount) + 1) % 256
      ensures var key := KeyOf(mem[t]);
              && key.w < |WHEELS|
              && (delay < WHEELS[key.w].resolution * WHEELS[key.w].size || key.w == |WHEELS| - 1)
              && (forall j :: 0 <= j < key.w ==> WHEELS[j].resolution * WHEELS[j].size <= delay)
              && SlotFits(key, now + delay)
      ensures var key := KeyOf(mem[t]);
              && key in old(lists) && lists == old(lists)[key := [t] + old(lists)[key]]
              && var head := NodeAtOrNil(old(lists)[key], 0);
                 (head == NIL || 0 <= head < mem.Length)
                 && mem[..] == LinkMem(Stamped(old(mem[..]), t, now + delay), t, key, head)
    {
      hide ChainMirror, WheelMirror, ChainsAdded, SlotsExist, LinkMem, TargetSlot, SlotFits;
      TargetExists(delay, now);
      TargetMeans(delay, now);
      mem[t] := AddRefNode(mem[t]);
      var w := SelectWheel(delay);
      mem[t] := mem[t].(expireAt := now + delay);
      assert mem[..] == Stamped(old(mem[..]), t, now + delay);
      TouchKeepsTables(old(mem[..]), t, mem[t]);
      var slot := ComputeSlot(w, delay, now, mem[t].expireAt);
      ghost var m1 := mem[..];
      LinkInto(t, w, slot);
      LinkedFields(m1, t, Slot(w, slot), NodeAtOrNil(old(lists)[Slot(w, slot)], 0));
    }

    /** The slot heads after `Detach`. */
    ghost function DetachedSlots(t: nat): map<Slot, int>
      reads this, mem
      requires t < mem.Length && KeyOf(mem[t]) in slots
    {
      if slots[KeyOf(mem[t])] == t then slots[KeyOf(mem[t]) := mem[t].next] else slots
    }

    /** The pointer writes of `removeFromWheel`. */
    method Detach(t: nat)
      requires t < mem.Length && Linked(mem[..], t) && KeyOf(mem[t]) in slots
      requires mem[t].prev != t && mem[t].next != t && (mem[t].prev == mem[t].next ==> mem[t].prev == NIL)
      modifies this`slots, mem
      ensures mem[..] == UnlinkMem(old(mem[..]), t)
      ensures slots == old(DetachedSlots(t))
    {
      if mem[t].prev != NIL {
        mem[mem[t].prev] := mem[mem[t].prev].(next := mem[t].next);
      }
      if mem[t].next != NIL {
        mem[mem[t].next] := mem[mem[t].next].(prev := mem[t].prev);
      }
      if slots[KeyOf(mem[t])] == t {
        slots := slots[KeyOf(mem[t]) := mem[t].next];
      }
      mem[t] := mem[t].(wheel := NO_WHEEL);
      mem[t] := mem[t].(next := NIL);
      mem[t] := mem[t].(prev := NIL);
    }

    /** The slot lists without a timer that is in the slot its fields name. */
    ghost function DetachedLists(t: nat): map<Slot, seq<nat>>
      reads this, mem
      requires t < mem.Length
    {
      var key := KeyOf(mem[t]);
      if key in lists && t in lists[key] then lists[key := Cut(lists[key], IndexOf(lists[key], t))] else lists
    }

    /** What detaching a linked timer will do to the lists. */
    lemma DetachWorks(t: nat)
      requires Valid() && t in added && t < mem.Length && mem[t].wheel < NO_WHEEL
      ensures Linked(mem[..], t) && KeyOf(mem[t]) in slots && KeyOf(mem[t]) in lists && t in lists[KeyOf(mem[t])]
      ensures mem[t].prev != t && mem[t].next != t && (mem[t].prev == mem[t].next ==> mem[t].prev == NIL)
      ensures WheelMirror(UnlinkMem(mem[..], t), DetachedSlots(t), DetachedLists(t), added)
      ensures ChainMirror(UnlinkMem(mem[..], t), heads[..], chains) && SlotsExist(DetachedLists(t))
      ensures Detached(mem[..], t) == RefDropped(UnlinkMem(mem[..], t), t)
    {
      hide ChainMirror, WheelMirror, IndexOf, Cut, UnlinkMem;
      SlotPlace(t);
      var key, q := KeyOf(mem[t]), lists[KeyOf(mem[t])];
      var j := IndexOf(q, t);
      IndexOfFinds(q, t);
      UnlinkNeighbours(mem[..], q, key, added, j);
      UnlinkMirrors(mem[..], slots, lists, added, key, j);
      SlotHead(q, j, t);
      SlotsRemain(lists, key, Cut(q, j));
      DetachKeepsChains(mem[..], t);
      assert DetachedSlots(t) == slots[key := NodeAtOrNil(Cut(q, j), 0)];
    }

    /** The chains do not depend on the wheel links. */
    lemma DetachKeepsChains(m: seq<TmrNode>, t: nat)
      requires Linked(m, t) && ChainMirror(m, heads[..], chains)
      ensures ChainMirror(UnlinkMem(m, t), heads[..], chains)
    {
      ChainFrame(m, UnlinkMem(m, t), heads[..], chains);
    }

    /** The mutex section of `removeFromWheel` for a timer that still names its wheel. */
    method TakeOut(t: nat) returns (freed: bool)
      requires Valid() && t in added && t < mem.Length && mem[t].wheel < NO_WHEEL
      modifies this`slots, this`lists, mem
      ensures Valid()
      ensures lists == old(DetachedLists(t)) && mem[..] == Detached(old(mem[..]), t)
      ensures freed <==> mem[t].refCount == 0
    {
      hide ChainMirror, WheelMirror, UnlinkMem, Linked, ChainsAdded, SlotsExist, DetachedSlots, DetachedLists,
           RefDropped, Detached;
      DetachWorks(t);
      ghost var l1 := DetachedLists(t);
      Detach(t);
      lists := l1;
      freed := TimerDecRef(t);
    }

    /** `freed` says whether the wheel's reference was the last one. */
    method RemoveFromWheel(t: nat) returns (removed: bool, freed: bool)
      requires Valid() && t in added && t < mem.Length
      modifies this`slots, this`lists, mem
      ensures Valid()
      ensures removed <==> old(mem[t].wheel) < NO_WHEEL
      ensures !removed ==> !freed && slots == old(slots) && lists == old(lists) && mem[..] == old(mem[..])
      ensures removed ==>
                old(KeyOf(mem[t]) in lists && t in lists[KeyOf(mem[t])] && Linked(mem[..], t))
                && lists == old(DetachedLists(t)) && mem[..] == Detached(old(mem[..]), t)
                && (freed <==> mem[t].refCount == 0)
    {
      hide ChainMirror, WheelMirror, IndexOf, Cut, UnlinkMem, Linked, ChainsAdded, SlotsExist, DetachedLists, Detached;
      removed, freed := false, false;
      if mem[t].wheel >= NO_WHEEL {
        return;
      }
      if mem[t].wheel < NO_WHEEL {
        DetachWorks(t);
        freed := TakeOut(t);
        removed := true;
      }
    }
  }

  /** The fields of a timer after linking. */
  lemma LinkedFields(m: seq<TmrNode>, t: nat, key: Slot, head: int)
    requires t < |m| && (head == NIL || 0 <= head < |m|)
    ensures var o := LinkMem(m, t, key, head)[t];
            KeyOf(o) == key && o.expireAt == m[t].expireAt && o.refCount == m[t].refCount
  {}

  /** The chosen wheel is the finest that exceeds the delay, or the last. */
  lemma ChosenIsFinest(delay: nat)
    ensures var w := ChosenWheel(delay);
            && (delay < WHEELS[w].resolution * WHEELS[w].size || w == |WHEELS| - 1)
            && forall j :: 0 <= j < w ==> WHEELS[j].resolution * WHEELS[j].size <= delay
  {
    Spans();
    assert forall j :: 0 <= j < |WHEELS| ==> Span(j) == WHEELS[j].resolution * WHEELS[j].size;
  }

  /** The mark of a timer in no wheel is the length of the wheel table. */
  lemma NoWheelIsPastTheTable()
    ensures NO_WHEEL == |WHEELS| == 3
  {}

  lemma IndexOfFinds(q: seq<nat>, t: nat)
    requires t in q
    ensures IndexOf(q, t) < |q| && q[IndexOf(q, t)] == t
  {}

  /** Whether the head of the slot changes, and to what. */
  lemma SlotHead(q: seq<nat>, j: nat, t: nat)
    requires j < |q| && q[j] == t && NoDuplicates(q)
    ensures q[0] == t <==> j == 0
    ensures NodeAtOrNil(Cut(q, j), 0) == if j == 0 then NodeAtOrNil(q, 1) else NodeAtOrNil(q, 0)
  {}

  lemma CutIsInvisible(m: seq<TmrNode>, q: seq<nat>, k: nat)
    requires k < |q| && forall j :: 0 <= j < |q| ==> q[j] < |m|
    ensures SameWheelFields(m, CutMem(m, q, k))
  {}

  /** The head of a chain after a cut. */
  lemma CutHead(q: seq<nat>, k: nat)
    requires k < |q|
    ensures NodeAtOrNil(Cut(q, k), 0) == if k == 0 then NodeAtOrNil(q, 1) else q[0]
    ensures forall t :: t in Cut(q, k) ==> t in q
  {}
}
