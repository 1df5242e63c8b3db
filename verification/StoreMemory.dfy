/**
 * How the hash chains and the wheel slots of `ttimer/timer.c` lie in memory, and what the
 * pointer updates do to them. Pointers are block numbers, `NIL` is the null pointer.
 */
module StoreMemory {
  import opened Sequences
  import opened StoreModel
  import opened StoreChainSteps

  const NIL := -1

  /** The fields of the C struct `tmr_obj_t` that the store uses. */
  datatype TmrNode = TmrNode(id: nat, mnext: int, prev: int, next: int, slot: nat, wheel: nat, refCount: nat, expireAt: int)

  function NodeAtOrNil(q: seq<nat>, k: nat): int {
    if k < |q| then q[k] else NIL
  }

  function NodeBefore(q: seq<nat>, k: nat): int {
    if 0 < k <= |q| then q[k - 1] else NIL
  }

  // ----- hash chains -----

  /** The memory spells out the chain `q` of number `h` among `n`, linked by `mnext`. */
  ghost predicate ChainList(m: seq<TmrNode>, q: seq<nat>, h: nat, n: nat)
    requires n > 0
  {
    NoDuplicates(q) && forall j :: 0 <= j < |q| ==>
      q[j] < |m| && m[q[j]].mnext == NodeAtOrNil(q, j + 1) && m[q[j]].id % n == h
  }

  /** The chains are exactly what the list heads and the `mnext` pointers spell out. */
  ghost predicate ChainMirror(m: seq<TmrNode>, heads: seq<int>, chains: seq<seq<nat>>) {
    && |heads| == |chains| > 0
    && forall h :: 0 <= h < |chains| ==>
         heads[h] == NodeAtOrNil(chains[h], 0) && ChainList(m, chains[h], h, |chains|)
  }

  /** Nothing the chains depend on changed. */
  ghost predicate SameChainFields(m: seq<TmrNode>, m': seq<TmrNode>) {
    |m'| == |m| && forall t :: 0 <= t < |m| ==> m'[t].id == m[t].id && m'[t].mnext == m[t].mnext
  }

  lemma ChainFrame(m: seq<TmrNode>, m': seq<TmrNode>, heads: seq<int>, chains: seq<seq<nat>>)
    requires ChainMirror(m, heads, chains) && SameChainFields(m, m')
    ensures ChainMirror(m', heads, chains)
  {
    forall h | 0 <= h < |chains|
      ensures ChainList(m', chains[h], h, |chains|)
    {
      assert ChainList(m, chains[h], h, |chains|);
    }
  }

  /** A write to a node outside the chain is invisible to it. */
  lemma OtherChainKept(m: seq<TmrNode>, t: nat, o: TmrNode, q: seq<nat>, h: nat, n: nat)
    requires n > 0 && t < |m| && t !in q && ChainList(m, q, h, n)
    ensures ChainList(m[t := o], q, h, n)
  {}

  /** The writes of `addTimer` put a new node in front. */
  lemma PushedChain(m: seq<TmrNode>, q: seq<nat>, t: nat, h: nat, n: nat)
    requires n > 0 && t < |m| && t !in q && m[t].id % n == h && ChainList(m, q, h, n)
    ensures ChainList(m[t := m[t].(mnext := NodeAtOrNil(q, 0))], [t] + q, h, n)
  {
    OtherChainKept(m, t, m[t].(mnext := NodeAtOrNil(q, 0)), q, h, n);
  }

  lemma PushMirrors(m: seq<TmrNode>, heads: seq<int>, chains: seq<seq<nat>>, t: nat, h: nat)
    requires ChainMirror(m, heads, chains) && t < |m| && h < |chains| && m[t].id % |chains| == h
    requires t !in chains[h]
    ensures ChainMirror(m[t := m[t].(mnext := heads[h])], heads[h := t], chains[h := [t] + chains[h]])
  {
    var m', c' := m[t := m[t].(mnext := heads[h])], chains[h := [t] + chains[h]];
    forall g | 0 <= g < |c'|
      ensures ChainList(m', c'[g], g, |c'|)
    {
      assert ChainList(m, chains[g], g, |chains|);
      if g == h {
        PushedChain(m, chains[h], t, h, |chains|);
      } else {
        NotInOtherChain(m, chains[g], g, |chains|, t);
        OtherChainKept(m, t, m[t].(mnext := heads[h]), chains[g], g, |chains|);
      }
    }
  }

  lemma NotInOtherChain(m: seq<TmrNode>, q: seq<nat>, h: nat, n: nat, t: nat)
    requires n > 0 && ChainList(m, q, h, n) && t < |m| && m[t].id % n != h
    ensures t !in q
  {}

  /** The write of `removeTimer` that bypasses node `k`, unless it is the head. */
  function CutMem(m: seq<TmrNode>, q: seq<nat>, k: nat): (r: seq<TmrNode>)
    requires k < |q| && forall j :: 0 <= j < |q| ==> q[j] < |m|
    ensures |r| == |m|
  {
    if k == 0 then m else m[q[k - 1] := m[q[k - 1]].(mnext := m[q[k]].mnext)]
  }

  lemma NodesExist(m: seq<TmrNode>, q: seq<nat>, h: nat, n: nat)
    requires n > 0 && ChainList(m, q, h, n)
    ensures forall j :: 0 <= j < |q| ==> q[j] < |m| && m[q[j]].mnext == NodeAtOrNil(q, j + 1) && m[q[j]].id % n == h
  {}

  /** A node of the chain after the bypass of node `k`. */
  lemma CutNode(m: seq<TmrNode>, q: seq<nat>, k: nat, i: nat)
    requires k < |q| && i < |q| && i != k && NoDuplicates(q) && forall j :: 0 <= j < |q| ==> q[j] < |m|
    ensures CutMem(m, q, k)[q[i]] == if i + 1 == k then m[q[i]].(mnext := m[q[k]].mnext) else m[q[i]]
  {
    if k > 0 && i != k - 1 { assert q[i] != q[k - 1]; }
  }

  lemma NextAfterCut(q: seq<nat>, k: nat, j: nat)
    requires k < |q| && j < |q| - 1
    ensures var i := if j < k then j else j + 1;
            Cut(q, k)[j] == q[i]
            && NodeAtOrNil(Cut(q, k), j + 1) == NodeAtOrNil(q, if i + 1 == k then k + 1 else i + 1)
  {}

  lemma CutLength(m: seq<TmrNode>, q: seq<nat>, k: nat)
    requires k < |q| && forall j :: 0 <= j < |q| ==> q[j] < |m|
    ensures |Cut(q, k)| == |q| - 1 && |CutMem(m, q, k)| == |m|
  {}

  lemma CutChain(m: seq<TmrNode>, q: seq<nat>, k: nat, h: nat, n: nat)
    requires n > 0 && ChainList(m, q, h, n) && k < |q| && forall j :: 0 <= j < |q| ==> q[j] < |m|
    ensures ChainList(CutMem(m, q, k), Cut(q, k), h, n)
  {
    hide CutMem, Cut, NodeAtOrNil, NoDuplicates;
    CutMembers(q, k);
    var m', r := CutMem(m, q, k), Cut(q, k);
    CutLength(m, q, k);
    forall j | 0 <= j < |r|
      ensures r[j] < |m'| && m'[r[j]].mnext == NodeAtOrNil(r, j + 1) && m'[r[j]].id % n == h
    {
      NextAfterCut(q, k, j);
      CutNode(m, q, k, if j < k then j else j + 1);
    }
  }

  /** Unlinking node `k` leaves exactly the chain without it. */
  lemma CutMirrors(m: seq<TmrNode>, heads: seq<int>, chains: seq<seq<nat>>, h: nat, k: nat)
    requires ChainMirror(m, heads, chains) && h < |chains| && k < |chains[h]|
    ensures forall j :: 0 <= j < |chains[h]| ==> chains[h][j] < |m|
    ensures ChainMirror(CutMem(m, chains[h], k), heads[h := NodeAtOrNil(Cut(chains[h], k), 0)],
                        chains[h := Cut(chains[h], k)])
  {
    var q := chains[h];
    NodesExist(m, q, h, |chains|);
    var m', c' := CutMem(m, q, k), chains[h := Cut(q, k)];
    forall g | 0 <= g < |c'|
      ensures ChainList(m', c'[g], g, |c'|)
    {
      assert ChainList(m, chains[g], g, |chains|);
      if g == h {
        CutChain(m, q, k, h, |chains|);
      } else if k > 0 {
        NotInOtherChain(m, chains[g], g, |chains|, q[k - 1]);
        OtherChainKept(m, q[k - 1], m[q[k - 1]].(mnext := m[q[k]].mnext), chains[g], g, |chains|);
      }
    }
    hide ChainList, Cut, CutMem;
  }

  /** The first node with the id, or the length of the chain. */
  function FirstWith(m: seq<TmrNode>, q: seq<nat>, id: nat): (k: nat)
    requires forall j :: 0 <= j < |q| ==> q[j] < |m|
    ensures k <= |q|
    ensures k < |q| ==> m[q[k]].id == id
    ensures forall j :: 0 <= j < k ==> m[q[j]].id != id
  {
    if q == [] || m[q[0]].id == id then 0 else 1 + FirstWith(m, q[1..], id)
  }

  lemma FirstWithUnique(m: seq<TmrNode>, q: seq<nat>, id: nat, k: nat)
    requires forall j :: 0 <= j < |q| ==> q[j] < |m|
    requires k <= |q| && (k < |q| ==> m[q[k]].id == id)
    requires forall j :: 0 <= j < k ==> m[q[j]].id != id
    ensures FirstWith(m, q, id) == k
  {
    var f := FirstWith(m, q, id);
    assert f < |q| ==> m[q[f]].id == id;
  }

  // ----- wheel slots -----

  function KeyOf(o: TmrNode): Slot {
    Slot(o.wheel, o.slot)
  }

  /** `o` is what node `j` of list `q` of slot `key` must hold. */
  predicate LinkedAs(o: TmrNode, q: seq<nat>, j: nat, key: Slot) {
    o.prev == NodeBefore(q, j) && o.next == NodeAtOrNil(q, j + 1) && KeyOf(o) == key
  }

  /** The memory spells out the list `q` of slot `key`, doubly linked. */
  ghost predicate ListMirror(m: seq<TmrNode>, q: seq<nat>, key: Slot, added: set<nat>) {
    NoDuplicates(q) && forall j :: 0 <= j < |q| ==> q[j] in added && q[j] < |m| && LinkedAs(m[q[j]], q, j, key)
  }

  /** An added timer that names a wheel is in the slot that its fields name. */
  ghost predicate NamesItsSlot(m: seq<TmrNode>, lists: map<Slot, seq<nat>>, t: nat) {
    t < |m| && m[t].wheel <= NO_WHEEL
    && (m[t].wheel < NO_WHEEL ==> KeyOf(m[t]) in lists && t in lists[KeyOf(m[t])])
  }

  /** The slot lists are well-formed doubly linked lists of exactly the timers that name them. */
  ghost predicate WheelMirror(m: seq<TmrNode>, slots: map<Slot, int>, lists: map<Slot, seq<nat>>, added: set<nat>) {
    && slots.Keys == lists.Keys
    && (forall key :: key in lists ==>
          key.w < NO_WHEEL && slots[key] == NodeAtOrNil(lists[key], 0) && ListMirror(m, lists[key], key, added))
    && (forall t :: t in added ==> NamesItsSlot(m, lists, t))
  }

  /** Nothing the wheels depend on changed. */
  ghost predicate SameWheelFields(m: seq<TmrNode>, m': seq<TmrNode>) {
    |m'| == |m| && forall t :: 0 <= t < |m| ==>
      m'[t].prev == m[t].prev && m'[t].next == m[t].next && KeyOf(m'[t]) == KeyOf(m[t])
  }

  lemma WheelFrame(m: seq<TmrNode>, m': seq<TmrNode>, slots: map<Slot, int>, lists: map<Slot, seq<nat>>, added: set<nat>)
    requires WheelMirror(m, slots, lists, added) && SameWheelFields(m, m')
    ensures WheelMirror(m', slots, lists, added)
  {
    forall key | key in lists
      ensures ListMirror(m', lists[key], key, added)
    {
      assert ListMirror(m, lists[key], key, added);
    }
    forall t | t in added
      ensures NamesItsSlot(m', lists, t)
    {
      assert NamesItsSlot(m, lists, t);
    }
  }

  lemma OtherListKept(m: seq<TmrNode>, m': seq<TmrNode>, q: seq<nat>, k: Slot, added: set<nat>, key: Slot)
    requires ListMirror(m, q, k, added) && k != key && k.w < NO_WHEEL && |m'| == |m|
    requires forall t :: t in added && t < |m| && KeyOf(m[t]) != key && m[t].wheel < NO_WHEEL ==> m'[t] == m[t]
    ensures ListMirror(m', q, k, added)
  {
    forall j | 0 <= j < |q|
      ensures LinkedAs(m'[q[j]], q, j, k)
    {
      assert LinkedAs(m[q[j]], q, j, k);
    }
  }

  /** Replacing one list: the others, whose nodes kept their links, stay as they are. */
  lemma OneListReplaced(m: seq<TmrNode>, m': seq<TmrNode>, slots: map<Slot, int>, lists: map<Slot, seq<nat>>,
                        added: set<nat>, key: Slot, q: seq<nat>)
    requires WheelMirror(m, slots, lists, added) && key in lists && |m'| == |m|
    requires ListMirror(m', q, key, added)
    requires forall t :: t in added && t < |m| && KeyOf(m[t]) != key && m[t].wheel < NO_WHEEL ==> m'[t] == m[t]
    requires forall t :: t in added ==> NamesItsSlot(m', lists[key := q], t)
    ensures WheelMirror(m', slots[key := NodeAtOrNil(q, 0)], lists[key := q], added)
  {
    hide ListMirror, NamesItsSlot;
    forall k | k in lists && k != key
      ensures ListMirror(m', lists[k], k, added)
    {
      OtherListKept(m, m', lists[k], k, added, key);
    }
  }

  /** `addTimer` writes a timer that is in no slot, and marks it as being in no wheel. */
  lemma AddedMirrors(m: seq<TmrNode>, slots: map<Slot, int>, lists: map<Slot, seq<nat>>, added: set<nat>, t: nat, o: TmrNode)
    requires WheelMirror(m, slots, lists, added) && t < |m| && (t in added ==> m[t].wheel == NO_WHEEL) && o.wheel == NO_WHEEL
    ensures WheelMirror(m[t := o], slots, lists, added + {t})
  {
    forall key | key in lists
      ensures ListMirror(m[t := o], lists[key], key, added + {t})
    {
      assert ListMirror(m, lists[key], key, added);
      forall j | 0 <= j < |lists[key]|
        ensures lists[key][j] != t
      {
        assert LinkedAs(m[lists[key][j]], lists[key], j, key);
      }
    }
    forall u | u in added + {t}
      ensures NamesItsSlot(m[t := o], lists, u)
    {
      if u != t { assert NamesItsSlot(m, lists, u); }
    }
  }

  // ----- linking -----

  /** The writes of `addToWheel` to the timer and to the old head of its slot. */
  function LinkMem(m: seq<TmrNode>, t: nat, key: Slot, head: int): (r: seq<TmrNode>)
    requires t < |m| && (head == NIL || 0 <= head < |m|)
    ensures |r| == |m|
  {
    var m1 := m[t := m[t].(prev := NIL, next := head, wheel := key.w, slot := key.sl)];
    if head != NIL then m1[head := m1[head].(prev := t)] else m1
  }

  lemma HeadExists(m: seq<TmrNode>, slots: map<Slot, int>, lists: map<Slot, seq<nat>>, added: set<nat>, key: Slot)
    requires WheelMirror(m, slots, lists, added) && key in lists
    ensures key in slots
    ensures slots[key] == NIL || (0 <= slots[key] < |m| && slots[key] in added && KeyOf(m[slots[key]]) == key)
    ensures slots[key] == NodeAtOrNil(lists[key], 0) && ListMirror(m, lists[key], key, added) && key.w < NO_WHEEL
  {
    assert ListMirror(m, lists[key], key, added);
  }

  lemma LinkedList(m: seq<TmrNode>, q: seq<nat>, added: set<nat>, t: nat, key: Slot)
    requires ListMirror(m, q, key, added) && t in added && t < |m| && t !in q
    requires NodeAtOrNil(q, 0) == NIL || 0 <= NodeAtOrNil(q, 0) < |m|
    ensures ListMirror(LinkMem(m, t, key, NodeAtOrNil(q, 0)), [t] + q, key, added)
  {
    var m', r := LinkMem(m, t, key, NodeAtOrNil(q, 0)), [t] + q;
    forall j | 0 <= j < |r|
      ensures r[j] in added && r[j] < |m'| && LinkedAs(m'[r[j]], r, j, key)
    {
      if j > 0 {
        assert LinkedAs(m[q[j - 1]], q, j - 1, key);
        if j > 1 { assert q[j - 1] != q[0]; }
      } else if q != [] {
        assert LinkedAs(m[q[0]], q, 0, key);
      }
    }
  }

  lemma FreeIsNotListed(m: seq<TmrNode>, q: seq<nat>, key: Slot, added: set<nat>, t: nat)
    requires ListMirror(m, q, key, added) && t < |m| && m[t].wheel != key.w
    ensures t !in q
  {
    forall j | 0 <= j < |q|
      ensures q[j] != t
    {
      assert LinkedAs(m[q[j]], q, j, key);
    }
  }

  lemma LinkedNames(m: seq<TmrNode>, lists: map<Slot, seq<nat>>, t: nat, key: Slot, head: int, u: nat)
    requires t < |m| && m[t].wheel == NO_WHEEL && key in lists && (head == NIL || 0 <= head < |m|) && key.w < NO_WHEEL
    requires NamesItsSlot(m, lists, u) && head == NodeAtOrNil(lists[key], 0)
    requires head == NIL || KeyOf(m[head]) == key
    ensures NamesItsSlot(LinkMem(m, t, key, head), lists[key := [t] + lists[key]], u)
    ensures KeyOf(m[u]) != key && m[u].wheel < NO_WHEEL ==> LinkMem(m, t, key, head)[u] == m[u]
  {
    if u != t && m[u].wheel < NO_WHEEL { MembersStay(lists[KeyOf(m[u])], t, u); }
  }

  /** The mutex section of `addToWheel` puts the timer in front of its slot list. */
  lemma LinkMirrors(m: seq<TmrNode>, slots: map<Slot, int>, lists: map<Slot, seq<nat>>, added: set<nat>, t: nat, key: Slot)
    requires WheelMirror(m, slots, lists, added) && t in added && key in lists
    requires t < |m| && m[t].wheel == NO_WHEEL
    ensures slots[key] == NIL || 0 <= slots[key] < |m|
    ensures WheelMirror(LinkMem(m, t, key, slots[key]), slots[key := t], lists[key := [t] + lists[key]], added)
  {
    HeadExists(m, slots, lists, added, key);
    assert forall u :: u in added ==> NamesItsSlot(m, lists, u);
    assert forall u :: u in added ==> u < |m|;
    hide WheelMirror, NamesItsSlot, LinkMem;
    FreeIsNotListed(m, lists[key], key, added, t);
    LinkedList(m, lists[key], added, t, key);
    var m' := LinkMem(m, t, key, slots[key]);
    forall u | u in added
      ensures NamesItsSlot(m', lists[key := [t] + lists[key]], u)
      ensures KeyOf(m[u]) != key && m[u].wheel < NO_WHEEL ==> m'[u] == m[u]
    {
      LinkedNames(m, lists, t, key, slots[key], u);
    }
    hide ListMirror;
    OneListReplaced(m, m', slots, lists, added, key, [t] + lists[key]);
  }

  lemma MembersStay(q: seq<nat>, t: nat, u: nat)
    ensures u in q ==> u in [t] + q
  {}

  // ----- unlinking -----

  /** The neighbours of `t` are nodes, or nothing. */
  predicate Linked(m: seq<TmrNode>, t: nat) {
    && t < |m|
    && (m[t].prev == NIL || 0 <= m[t].prev < |m|) && (m[t].next == NIL || 0 <= m[t].next < |m|)
  }

  /** The writes of `removeFromWheel` to the timer and its neighbours. */
  function UnlinkMem(m: seq<TmrNode>, t: nat): (r: seq<TmrNode>)
    requires Linked(m, t)
    ensures |r| == |m|
  {
    var o := m[t];
    var m1 := if o.prev != NIL then m[o.prev := m[o.prev].(next := o.next)] else m;
    var m2 := if o.next != NIL then m1[o.next := m1[o.next].(prev := o.prev)] else m1;
    m2[t := m2[t].(wheel := NO_WHEEL, next := NIL, prev := NIL)]
  }

  lemma UnlinkMemAt(m: seq<TmrNode>, t: nat, c: nat)
    requires Linked(m, t) && c < |m|
    requires m[t].prev != t && m[t].next != t && (m[t].prev == m[t].next ==> m[t].prev == NIL)
    ensures UnlinkMem(m, t)[c] ==
            if c == t then m[c].(wheel := NO_WHEEL, next := NIL, prev := NIL)
            else if c == m[t].next then m[c].(prev := m[t].prev)
            else if c == m[t].prev then m[c].(next := m[t].next)
            else m[c]
  {}

  /** The neighbours of a linked timer are in its list, and differ from it and from each other. */
  lemma UnlinkNeighbours(m: seq<TmrNode>, q: seq<nat>, key: Slot, added: set<nat>, j: nat)
    requires ListMirror(m, q, key, added) && j < |q|
    ensures var t := q[j];
            Linked(m, t) && m[t].prev == NodeBefore(q, j) && m[t].next == NodeAtOrNil(q, j + 1)
            && m[t].prev != t && m[t].next != t && (m[t].prev == m[t].next ==> m[t].prev == NIL)
            && (m[t].prev != NIL ==> KeyOf(m[m[t].prev]) == key) && (m[t].next != NIL ==> KeyOf(m[m[t].next]) == key)
  {
    assert LinkedAs(m[q[j]], q, j, key);
    if j > 0 { assert LinkedAs(m[q[j - 1]], q, j - 1, key); }
    if j + 1 < |q| { assert LinkedAs(m[q[j + 1]], q, j + 1, key); }
  }

  lemma CutNeighbours(q: seq<nat>, j: nat, i: nat)
    requires j < |q| && i < |q| && i != j
    ensures var r, k := Cut(q, j), if i < j then i else i - 1;
            r[k] == q[i]
            && NodeBefore(r, k) == NodeBefore(q, if i == j + 1 then j else i)
            && NodeAtOrNil(r, k + 1) == NodeAtOrNil(q, if i + 1 == j then j + 1 else i + 1)
  {}

  lemma UnlinkedSibling(m: seq<TmrNode>, q: seq<nat>, key: Slot, added: set<nat>, j: nat, i: nat)
    requires ListMirror(m, q, key, added) && j < |q| && i < |q| && i != j && Linked(m, q[j])
    ensures q[i] < |m| && q[i] in added
    ensures LinkedAs(UnlinkMem(m, q[j])[q[i]], Cut(q, j), if i < j then i else i - 1, key)
  {
    hide UnlinkMem, Cut;
    UnlinkNeighbours(m, q, key, added, j);
    assert LinkedAs(m[q[i]], q, i, key);
    assert q[i] != q[j];
    assert q[i] == NodeBefore(q, j) <==> i + 1 == j;
    assert q[i] == NodeAtOrNil(q, j + 1) <==> i == j + 1;
    hide ListMirror, NoDuplicates;
    UnlinkMemAt(m, q[j], q[i]);
    CutNeighbours(q, j, i);
  }

  lemma UnlinkedList(m: seq<TmrNode>, q: seq<nat>, key: Slot, added: set<nat>, j: nat)
    requires ListMirror(m, q, key, added) && j < |q| && Linked(m, q[j])
    ensures ListMirror(UnlinkMem(m, q[j]), Cut(q, j), key, added)
  {
    hide UnlinkMem, LinkedAs;
    var m', r := UnlinkMem(m, q[j]), Cut(q, j);
    CutMembers(q, j);
    forall k | 0 <= k < |r|
      ensures r[k] in added && r[k] < |m'| && LinkedAs(m'[r[k]], r, k, key)
    {
      UnlinkedSibling(m, q, key, added, j, if k < j then k else k + 1);
    }
    hide NoDuplicates;
  }

  lemma UnlinkedNames(m: seq<TmrNode>, lists: map<Slot, seq<nat>>, added: set<nat>, key: Slot, j: nat, u: nat)
    requires key in lists && ListMirror(m, lists[key], key, added) && j < |lists[key]| && Linked(m, lists[key][j])
    requires NamesItsSlot(m, lists, u)
    ensures NamesItsSlot(UnlinkMem(m, lists[key][j]), lists[key := Cut(lists[key], j)], u)
    ensures KeyOf(m[u]) != key ==> UnlinkMem(m, lists[key][j])[u] == m[u]
  {
    hide UnlinkMem, Cut;
    UnlinkNeighbours(m, lists[key], key, added, j);
    assert LinkedAs(m[lists[key][j]], lists[key], j, key);
    UnlinkMemAt(m, lists[key][j], u);
    CutMembers(lists[key], j);
    hide ListMirror, NoDuplicates;
  }

  /** The mutex section of `removeFromWheel` takes the timer out and keeps the order of the others. */
  lemma UnlinkMirrors(m: seq<TmrNode>, slots: map<Slot, int>, lists: map<Slot, seq<nat>>, added: set<nat>, key: Slot, j: nat)
    requires WheelMirror(m, slots, lists, added) && key in lists && j < |lists[key]|
    ensures var t, q := lists[key][j], Cut(lists[key], j);
            Linked(m, t) && WheelMirror(UnlinkMem(m, t), slots[key := NodeAtOrNil(q, 0)], lists[key := q], added)
  {
    HeadExists(m, slots, lists, added, key);
    assert forall u :: u in added ==> NamesItsSlot(m, lists, u);
    assert forall u :: u in added ==> u < |m|;
    hide WheelMirror, NamesItsSlot;
    UnlinkNeighbours(m, lists[key], key, added, j);
    UnlinkedList(m, lists[key], key, added, j);
    var m' := UnlinkMem(m, lists[key][j]);
    forall u | u in added
      ensures NamesItsSlot(m', lists[key := Cut(lists[key], j)], u)
      ensures KeyOf(m[u]) != key ==> m'[u] == m[u]
    {
      UnlinkedNames(m, lists, added, key, j, u);
    }
    hide ListMirror, UnlinkMem;
    OneListReplaced(m, m', slots, lists, added, key, Cut(lists[key], j));
  }
}
