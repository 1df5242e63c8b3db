/**
 * The timer controller of `ttimer/tdengine_old.c`: slot lists threaded through the
 * blocks of a pool. Every method is proved to compute the operation of `WheelModel` of
 * the same name on the lists, so the results on `Store` and on runs apply to it.
 *
 * Each method body is one critical section under the controller's mutex; callbacks run
 * inside it and are recorded in `log`.
 */
module TmrController {
  import opened Sequences
  import opened CInt
  import opened Deadlines
  import opened ExactExpiry
  import opened WheelModel
  import opened WheelInvariant
  import opened MemPool
  import opened ListMemory
  import opened TimerRuns

  const SIZEOF_TMR_OBJ := 64

  /** A caller's timer handle variable. */
  class TmrHandle {
    var id: int
    constructor ()
      ensures id == NULL
    {
      id := NULL;
    }
  }

  /** Every handle given out names a block whose `timerId` tells whether it is linked. */
  ghost predicate HandlesSound(m: seq<TmrObj>, slots: seq<seq<Timer>>, issued: set<int>) {
    && (forall b :: b in issued ==> 0 <= b < |m|)
    && (forall b :: b in issued && !IsLinked(slots, b) ==> m[b].timerId == NULL)
    && (forall b: nat :: IsLinked(slots, b) ==> b in issued)
  }

  lemma UnlinkKeepsHandles(m: seq<TmrObj>, w: Wheel, i: nat, j: nat, issued: set<int>)
    requires Inv(w, {}) && At(w.slots, i, j) && Neighbours(m, w.slots, i, j)
    requires HandlesSound(m, w.slots, issued)
    ensures HandlesSound(UnlinkMem(m, w.slots[i][j].block), WheelModel.Unlink(w, w.slots[i][j].block).slots, issued)
  {
    var p := w.slots[i][j].block;
    var m' := UnlinkMem(m, p);
    UnlinkAt(w, i, j);
    NeighboursDiffer(m, w.slots, i, j);
    assert IsLinked(w.slots, p);
    assert Blocks(w.slots[i][j..j + 1]) == [p];
    forall b: nat
      ensures IsLinked(WheelModel.Unlink(w, p).slots, b) <==> IsLinked(w.slots, b) && b != p
    {
      ShrinkingUnlinks(w.slots, i, j, j + 1, b);
    }
    forall b: nat | b < |m|
      ensures m'[b].timerId == if b == p then NULL else m[b].timerId
    {
      UnlinkMemAt(m, p, b);
    }
  }

  /** Unlinking, on everything the controller keeps. */
  lemma UnlinkStep(m: seq<TmrObj>, lists: seq<TmrList>, w: Wheel, i: nat, j: nat, issued: set<int>)
    requires Inv(w, {}) && At(w.slots, i, j)
    requires Mirrors(m, lists, w.slots) && HandlesSound(m, w.slots, issued)
    ensures var p := w.slots[i][j].block;
            var r := WheelModel.Unlink(w, p);
            Neighbours(m, w.slots, i, j)
            && m[p].prev != p && m[p].next != p && m[p].index == i
            && p in issued
            && i < |lists|
            && r.n == w.n && r.size == w.size && r.now == w.now && r.free == w.free
            && Inv(r, {p}) && Total(r.slots) == Total(w.slots) - 1
            && Mirrors(UnlinkMem(m, p), UnlinkLists(lists, m[p]), r.slots)
            && HandlesSound(UnlinkMem(m, p), r.slots, issued)
  {
    UnlinkMirrors(m, lists, w.slots, i, j);
    NeighboursDiffer(m, w.slots, i, j);
    UnlinkAt(w, i, j);
    UnlinkKeepsInv(w, i, j);
    UnlinkKeepsHandles(m, w, i, j, issued);
    TotalUpdate(w.slots, i, Cut(w.slots[i], j));
    assert IsLinked(w.slots, w.slots[i][j].block);
  }

  lemma InsertPosIsFirst(L: seq<Timer>, c: int, k: nat)
    requires k <= |L|
    requires forall j :: 0 <= j < k ==> L[j].cycle < c
    requires k < |L| ==> c <= L[k].cycle
    ensures InsertPos(L, c) == k
  {}

  function ArmedTimer(w: Wheel, b: nat, period: int, fp: int, param: int): Timer
    requires 0 < w.n
  {
    Timer(b, ArmedCycle(period, w.n), w.stamp, fp, param)
  }

  /** The object `tmrReset` builds and the one it overwrites. */
  lemma LinkMemOverwrites(m: seq<TmrObj>, b: nat, o: TmrObj, o': TmrObj)
    requires b < |m|
    requires o.prev == NULL || 0 <= o.prev < |m|
    requires o.next == NULL || 0 <= o.next < |m|
    ensures LinkMem(m[b := o'], b, o) == LinkMem(m, b, o)
  {
    assert m[b := o'][b := o] == m[b := o];
  }

  lemma LinkKeepsHandles(m: seq<TmrObj>, slots: seq<seq<Timer>>, b: nat, o: TmrObj, issued: set<int>,
                         slots': seq<seq<Timer>>)
    requires HandlesSound(m, slots, issued) && b in issued
    requires Linkable(m, b, o) && o.timerId == b
    requires forall c: nat :: IsLinked(slots', c) <==> IsLinked(slots, c) || c == b
    ensures HandlesSound(LinkMem(m, b, o), slots', issued)
  {
    forall c: nat | c < |m|
      ensures LinkMem(m, b, o)[c].timerId == if c == b then b else m[c].timerId
    {
      LinkMemAt(m, b, o, c);
    }
  }

  /** The object a placed block holds: its fields, and the neighbours it gets. */
  function PlacedObject(w: Wheel, b: nat, period: int, fp: int, param: int): (o: TmrObj)
    requires 0 < w.n == |w.slots|
  {
    var i, cycle := ArmedSlot(w.now, period, w.n), ArmedCycle(period, w.n);
    var L, p := w.slots[i], InsertPos(w.slots[i], cycle);
    TmrObj(param, fp, b, cycle, PrevAt(L, p), NextAt(L, p), i)
  }

  /** The neighbours of place `p`, between two timers or at an end. */
  function PrevAt(L: seq<Timer>, p: nat): int
    requires p <= |L|
  {
    if p == 0 then NULL else L[p - 1].block
  }

  function NextAt(L: seq<Timer>, p: nat): int
    requires p <= |L|
  {
    if p == |L| then NULL else L[p].block
  }

  /** `o` can be linked as block `b`: its neighbours exist and are others. */
  predicate Linkable(m: seq<TmrObj>, b: nat, o: TmrObj) {
    && b < |m|
    && (o.prev == NULL || 0 <= o.prev < |m|) && o.prev != b
    && (o.next == NULL || 0 <= o.next < |m|) && o.next != b
    && (o.prev == o.next ==> o.prev == NULL)
  }

  /** Linking, on everything the controller keeps; `o'` is what the block holds before. */
  lemma LinkStep(m: seq<TmrObj>, lists: seq<TmrList>, w: Wheel, b: nat, period: int, fp: int, param: int,
                 issued: set<int>, o': TmrObj)
    requires Inv(w, {b}) && Mirrors(m, lists, w.slots) && HandlesSound(m, w.slots, issued) && b in issued
    ensures var o, r := PlacedObject(w, b, period, fp, param), Place(w, b, period, fp, param);
            Linkable(m, b, o)
            && |lists| == w.n && |r.slots| == w.n
            && Mirrors(m[b := o'], lists, w.slots)
            && r.n == w.n && r.size == w.size && r.now == w.now && r.free == w.free
            && Inv(r, {}) && Total(r.slots) == Total(w.slots) + 1
            && Mirrors(LinkMem(m[b := o'], b, o), LinkLists(lists, b, o), r.slots)
            && HandlesSound(LinkMem(m[b := o'], b, o), r.slots, issued)
  {
    var i, x := ArmedSlot(w.now, period, w.n), ArmedTimer(w, b, period, fp, param);
    var L, p := w.slots[i], InsertPos(w.slots[i], x.cycle);
    var r := Place(w, b, period, fp, param);
    LinkMirrors(m, lists, w.slots, i, p, x);
    InsertionNeighbours(m, lists, w.slots, i, p, x);
    assert PlacedObject(w, b, period, fp, param) == Image(With(L, p, x), p, i);
    UnlinkedWriteKeepsMirror(m, lists, w.slots, b, o');
    LinkMemOverwrites(m, b, PlacedObject(w, b, period, fp, param), o');
    PlaceStep(m, w, b, period, fp, param, issued);
  }

  lemma PlaceStep(m: seq<TmrObj>, w: Wheel, b: nat, period: int, fp: int, param: int, issued: set<int>)
    requires Inv(w, {b}) && HandlesSound(m, w.slots, issued) && b in issued
    requires Linkable(m, b, PlacedObject(w, b, period, fp, param))
    ensures var o, r := PlacedObject(w, b, period, fp, param), Place(w, b, period, fp, param);
            Inv(r, {}) && Total(r.slots) == Total(w.slots) + 1
            && HandlesSound(LinkMem(m, b, o), r.slots, issued)
  {
    var i, x := ArmedSlot(w.now, period, w.n), ArmedTimer(w, b, period, fp, param);
    var r := Place(w, b, period, fp, param);
    assert {b} - {b} == {};
    ArmKeepsInv(w, {b}, b, period, fp, param);
    TotalUpdate(w.slots, i, InsertSorted(w.slots[i], x));
    forall c: nat
      ensures IsLinked(r.slots, c) <==> IsLinked(w.slots, c) || c == b
    {
      ArmLinks(w, b, period, fp, param, c);
    }
    LinkKeepsHandles(m, w.slots, b, PlacedObject(w, b, period, fp, param), issued, r.slots);
  }

  /** What the walk along a list reads. */
  lemma ListNode(m: seq<TmrObj>, lists: seq<TmrList>, slots: seq<seq<Timer>>, i: nat, k: nat)
    requires Mirrors(m, lists, slots) && At(slots, i, k)
    ensures var b := slots[i][k].block;
            b < |m| && m[b].cycle == slots[i][k].cycle && m[b].next == NextAt(slots[i], k + 1)
  {}

  lemma ListHead(m: seq<TmrObj>, lists: seq<TmrList>, slots: seq<seq<Timer>>, i: nat)
    requires Mirrors(m, lists, slots) && i < |slots|
    ensures i < |lists| && lists[i].head == NextAt(slots[i], 0)
  {}

  /** Taking the next free block, on everything the controller keeps. */
  lemma TakeStep(m: seq<TmrObj>, lists: seq<TmrList>, w: Wheel, issued: set<int>)
    requires Inv(w, {}) && w.free != [] && w.size == |m|
    requires Mirrors(m, lists, w.slots) && HandlesSound(m, w.slots, issued)
    ensures var b := w.free[0];
            b < |m| && Inv(Take(w), {b})
            && Mirrors(m[b := ZEROED], lists, w.slots)
            && HandlesSound(m[b := ZEROED], w.slots, issued + {b})
  {
    var b := w.free[0];
    assert b in w.free;
    TakeKeepsInv(w);
    UnlinkedWriteKeepsMirror(m, lists, w.slots, b, ZEROED);
  }

  lemma HeldBlock(m: seq<TmrObj>, w: Wheel, b: nat, issued: set<int>)
    requires Inv(w, {b}) && HandlesSound(m, w.slots, issued) && b in issued
    ensures |w.slots| == w.n && b < |m|
  {}

  /**
   * Handle soundness: of a handle ever given out, `timerId` equals the handle itself
   * if and only if its block is linked, so the test of `tmrReset` finds armed timers.
   */
  lemma LiveHandle(m: seq<TmrObj>, lists: seq<TmrList>, w: Wheel, h: int, issued: set<int>)
    requires Inv(w, {}) && Mirrors(m, lists, w.slots) && HandlesSound(m, w.slots, issued)
    ensures |w.slots| == w.n
    ensures h in issued ==> 0 <= h < |m| && (m[h].timerId == h <==> IsLinked(w.slots, h))
  {
    if h in issued && IsLinked(w.slots, h) {
      var i, j :| At(w.slots, i, j) && w.slots[i][j].block == h;
      assert m[h] == Image(w.slots[i], j, i);
    }
  }

  lemma ResetCases(w: Wheel, h: int, period: int, fp: int, param: int)
    requires 0 < w.n == |w.slots|
    ensures h >= 0 && IsLinked(w.slots, h) ==>
              Reset(w, h, period, fp, param) == (Place(WheelModel.Unlink(w, h), h, period, fp, param), h)
    ensures !(h >= 0 && IsLinked(w.slots, h)) ==>
              Reset(w, h, period, fp, param) ==
                if w.free == [] then (w, NULL)
                else (Place(Take(w), w.free[0], period, fp, param), w.free[0] as int)
  {}

  /** The address of a block is one `memPoolFree` accepts, for that block. */
  lemma AddressIsFreed(blockSize: int, numOfBlock: int, k: nat)
    requires 1 < blockSize && k < numOfBlock && blockSize * numOfBlock < 0x8000_0000
    ensures FreedBlock(blockSize * k, blockSize, numOfBlock) == k
  {
    BlockOffsetsFit(blockSize, numOfBlock, k);
    FreeAcceptsExactly(blockSize * k, blockSize, numOfBlock, k);
    assert k + 0 * U32 == k;
  }

  /** A block in hand fits the ring behind the free ones. */
  lemma RingHasRoom(w: Wheel, b: nat)
    requires Inv(w, {}) && b < w.size && b !in w.free
    ensures 0 < w.size && Appended(w.free, w.size, b) == w.free + [b]
  {
    DoubleFreeIsTheOnlyHarm(w.free, w.size, b);
  }

  /** Expiring the head of a list, on everything the controller keeps. */
  lemma ExpireStep(m: seq<TmrObj>, lists: seq<TmrList>, w: Wheel, i: nat, issued: set<int>)
    requires Inv(w, {}) && At(w.slots, i, 0)
    requires Mirrors(m, lists, w.slots) && HandlesSound(m, w.slots, issued)
    ensures var p := w.slots[i][0].block;
            var r := Popped(w, i, 1);
            i < |lists| && lists[i].head == p < |m| && p < w.size
            && (m[p].next == NULL || 0 <= m[p].next < |m|) && m[p].next != p
            && m[p].fp == w.slots[i][0].fp && m[p].param1 == w.slots[i][0].param
            && p !in w.free && Appended(w.free, w.size, p) == w.free + [p]
            && r.n == w.n && r.size == w.size && r.now == w.now && r.free == w.free + [p]
            && Inv(r, {}) && Total(r.slots) == Total(w.slots) - 1
            && Mirrors(PopMem(m, p)[p := ZEROED], lists[i := TmrList(m[p].next, lists[i].count - 1)], r.slots)
            && HandlesSound(PopMem(m, p)[p := ZEROED], r.slots, issued)
  {
    var L := w.slots[i];
    var p := L[0].block;
    var r := Popped(w, i, 1);
    assert IsLinked(w.slots, p);
    assert Blocks(L[..1]) == [p];
    PopMirrors(m, lists, w.slots, i);
    PoppedKeepsInv(w, i, 1);
    TotalUpdate(w.slots, i, L[1..]);
    assert p in r.free;
    RingHasRoom(w, p);
    UnlinkedWriteKeepsMirror(PopMem(m, p), lists[i := TmrList(m[p].next, lists[i].count - 1)], r.slots, p, ZEROED);
    ExpireKeepsHandles(m, w, i, issued);
  }

  lemma ExpireKeepsHandles(m: seq<TmrObj>, w: Wheel, i: nat, issued: set<int>)
    requires Inv(w, {}) && At(w.slots, i, 0) && Neighbours(m, w.slots, i, 0)
    requires HandlesSound(m, w.slots, issued)
    ensures HandlesSound(PopMem(m, w.slots[i][0].block)[w.slots[i][0].block := ZEROED], Popped(w, i, 1).slots, issued)
  {
    var L := w.slots[i];
    var p := L[0].block;
    var m' := PopMem(m, p)[p := ZEROED];
    assert L[..0] + L[1..] == L[1..] && Blocks(L[0..1]) == [p];
    forall b: nat
      ensures IsLinked(Popped(w, i, 1).slots, b) <==> IsLinked(w.slots, b) && b != p
    {
      ShrinkingUnlinks(w.slots, i, 0, 1, b);
    }
    assert IsLinked(w.slots, p);
    assert forall b :: 0 <= b < |m| ==> m'[b].timerId == if b == p then NULL else m[b].timerId;
  }

  /** The memory after the first `k` timers of `L` lost a cycle. */
  function AgedMem(m: seq<TmrObj>, L: seq<Timer>, k: nat): (r: seq<TmrObj>)
    requires k <= |L| && forall j :: 0 <= j < k ==> L[j].block < |m|
    ensures |r| == |m|
  {
    if k == 0 then m
    else
      var r := AgedMem(m, L, k - 1);
      var b := L[k - 1].block;
      r[b := r[b].(cycle := r[b].cycle - 1)]
  }

  /** Ageing writes nothing but cycles. */
  lemma {:induction false} AgedOnlyCycles(m: seq<TmrObj>, L: seq<Timer>, k: nat, c: nat)
    requires k <= |L| && c < |m|
    requires forall j :: 0 <= j < |L| ==> L[j].block < |m|
    ensures AgedMem(m, L, k)[c] == m[c].(cycle := AgedMem(m, L, k)[c].cycle)
  {
    if k != 0 {
      AgedOnlyCycles(m, L, k - 1, c);
    }
  }

  /** Blocks outside the aged part keep their cycles too. */
  lemma {:induction false} AgedMiss(m: seq<TmrObj>, L: seq<Timer>, k: nat, c: nat)
    requires k <= |L| && c < |m|
    requires forall j :: 0 <= j < |L| ==> L[j].block < |m|
    requires forall j :: 0 <= j < k ==> L[j].block != c
    ensures AgedMem(m, L, k)[c] == m[c]
  {
    if k != 0 {
      AgedMiss(m, L, k - 1, c);
    }
  }

  /** A timer of the aged part loses exactly one cycle. */
  lemma {:induction false} AgedHit(m: seq<TmrObj>, L: seq<Timer>, k: nat, j: nat)
    requires j < k <= |L|
    requires forall a :: 0 <= a < |L| ==> L[a].block < |m|
    requires forall a, b :: 0 <= a < b < |L| ==> L[a].block != L[b].block
    ensures AgedMem(m, L, k)[L[j].block] == m[L[j].block].(cycle := m[L[j].block].cycle - 1)
  {
    if j == k - 1 {
      AgedMiss(m, L, k - 1, L[j].block);
    } else {
      AgedHit(m, L, k - 1, j);
    }
  }

  /** Ageing a list, on everything the controller keeps. */
  lemma AgeStep(m: seq<TmrObj>, lists: seq<TmrList>, w: Wheel, i: nat, issued: set<int>)
    requires Inv(w, {}) && i < |w.slots|
    requires Mirrors(m, lists, w.slots) && HandlesSound(m, w.slots, issued)
    ensures var L := w.slots[i];
            var r := w.(slots := w.slots[i := Age(L)]);
            Distinct(w.slots)
            && (forall j :: 0 <= j < |L| ==> L[j].block < |m|)
            && Inv(r, {}) && Total(r.slots) == Total(w.slots)
            && Mirrors(AgedMem(m, L, |L|), lists, r.slots)
            && HandlesSound(AgedMem(m, L, |L|), r.slots, issued)
  {
    AgedKeepsInv(w, i);
    TotalUpdate(w.slots, i, Age(w.slots[i]));
    AgeMirrors(m, lists, w.slots, i);
    AgeKeepsHandles(m, w.slots, i, issued);
  }

  lemma AgedInList(m: seq<TmrObj>, lists: seq<TmrList>, slots: seq<seq<Timer>>, i: nat, k: nat)
    requires Distinct(slots) && Mirrors(m, lists, slots) && At(slots, i, k)
    requires forall j :: 0 <= j < |slots[i]| ==> slots[i][j].block < |m|
    ensures AgedMem(m, slots[i], |slots[i]|)[slots[i][k].block] == Image(Age(slots[i]), k, i)
  {
    BlocksDiffer(slots, i);
    AgeImage(slots[i], k, i);
    AgedHit(m, slots[i], |slots[i]|, k);
    hide AgedMem, Age, Image;
  }

  lemma BlocksDiffer(slots: seq<seq<Timer>>, i: nat)
    requires Distinct(slots) && i < |slots|
    ensures forall a, b :: 0 <= a < b < |slots[i]| ==> slots[i][a].block != slots[i][b].block
  {
    forall a, b | 0 <= a < b < |slots[i]| ensures slots[i][a].block != slots[i][b].block {
      assert At(slots, i, a) && At(slots, i, b);
    }
  }

  lemma AgeImage(L: seq<Timer>, k: nat, i: int)
    requires k < |L|
    ensures Image(Age(L), k, i) == Image(L, k, i).(cycle := L[k].cycle - 1)
  {}

  lemma AgedElsewhere(m: seq<TmrObj>, slots: seq<seq<Timer>>, i: nat, a: int, k: int)
    requires Distinct(slots) && i < |slots| && At(slots, a, k) && a != i && slots[a][k].block < |m|
    requires forall j :: 0 <= j < |slots[i]| ==> slots[i][j].block < |m|
    ensures AgedMem(m, slots[i], |slots[i]|)[slots[a][k].block] == m[slots[a][k].block]
  {
    forall j | 0 <= j < |slots[i]| ensures slots[i][j].block != slots[a][k].block {
      assert At(slots, i, j);
    }
    AgedMiss(m, slots[i], |slots[i]|, slots[a][k].block);
  }

  lemma AgeMirrors(m: seq<TmrObj>, lists: seq<TmrList>, slots: seq<seq<Timer>>, i: nat)
    requires Distinct(slots) && i < |slots| && Mirrors(m, lists, slots)
    ensures forall j :: 0 <= j < |slots[i]| ==> slots[i][j].block < |m|
    ensures Mirrors(AgedMem(m, slots[i], |slots[i]|), lists, slots[i := Age(slots[i])])
  {
    var L := slots[i];
    forall j | 0 <= j < |L| ensures L[j].block < |m| {
      assert At(slots, i, j);
    }
    var m' := AgedMem(m, L, |L|);
    assert |m'| == |m|;
    hide AgedMem;
    forall k | 0 <= k < |L|
      ensures Age(L)[k].block < |m| && m'[Age(L)[k].block] == Image(Age(L), k, i)
    {
      AgedInList(m, lists, slots, i, k);
    }
    forall a, k | At(slots, a, k) && a != i
      ensures m'[slots[a][k].block] == m[slots[a][k].block]
    {
      AgedElsewhere(m, slots, i, a, k);
    }
    OtherListsKept(m, m', lists, lists, slots, i, Age(L));
  }

  lemma AgeKeepsHandles(m: seq<TmrObj>, slots: seq<seq<Timer>>, i: nat, issued: set<int>)
    requires i < |slots|
    requires forall j :: 0 <= j < |slots[i]| ==> slots[i][j].block < |m|
    requires HandlesSound(m, slots, issued)
    ensures HandlesSound(AgedMem(m, slots[i], |slots[i]|), slots[i := Age(slots[i])], issued)
  {
    var m' := AgedMem(m, slots[i], |slots[i]|);
    assert |m'| == |m|;
    hide AgedMem;
    forall b: nat
      ensures IsLinked(slots[i := Age(slots[i])], b) <==> IsLinked(slots, b)
    {
      AgeKeepsLinks(slots, i, b);
    }
    forall b: nat | b < |m|
      ensures m'[b].timerId == m[b].timerId
    {
      AgedOnlyCycles(m, slots[i], |slots[i]|, b);
    }
  }

  lemma AgeKeepsLinks(slots: seq<seq<Timer>>, i: nat, b: nat)
    requires i < |slots|
    ensures IsLinked(slots[i := Age(slots[i])], b) <==> IsLinked(slots, b)
  {
    var s := slots[i := Age(slots[i])];
    if a, j :| At(s, a, j) && s[a][j].block == b { assert At(slots, a, j) && slots[a][j].block == b; }
    if a, j :| At(slots, a, j) && slots[a][j].block == b { assert At(s, a, j) && s[a][j].block == b; }
  }

  lemma PoppedNothing(w: Wheel, i: nat)
    requires i < |w.slots|
    ensures Popped(w, i, 0) == w && Firings(w.now, w.slots[i][..0]) == []
  {
    assert w.slots[i][0..] == w.slots[i];
    assert w.slots[i := w.slots[i]] == w.slots;
    assert w.free + Blocks(w.slots[i][..0]) == w.free;
  }

  lemma PoppedFacts(w: Wheel, i: nat, k: nat)
    requires i < |w.slots| && k <= |w.slots[i]|
    ensures var r := Popped(w, i, k);
            |r.slots| == |w.slots| && r.slots[i] == w.slots[i][k..] && r.now == w.now && r.n == w.n
            && (At(r.slots, i, 0) <==> k < |w.slots[i]|)
  {}

  lemma PoppedAgain(w: Wheel, i: nat, k: nat)
    requires i < |w.slots| && k < |w.slots[i]|
    ensures Popped(w, i, k).slots[i] != []
    ensures Popped(Popped(w, i, k), i, 1) == Popped(w, i, k + 1)
    ensures Firings(w.now, w.slots[i][..k]) + Firings(w.now, w.slots[i][k..][..1])
         == Firings(w.now, w.slots[i][..k + 1])
  {
    var L := w.slots[i];
    assert L[k..][1..] == L[k + 1..];
    assert L[k..][..1] == [L[k]];
    assert Blocks(L[..k]) + Blocks([L[k]]) == Blocks(L[..k + 1]);
    assert w.free + Blocks(L[..k]) + Blocks([L[k]]) == w.free + Blocks(L[..k + 1]);
    assert w.slots[i := L[k..]][i := L[k + 1..]] == w.slots[i := L[k + 1..]];
  }

  /** When the walk stops, the model is the processed wheel but for the clock. */
  lemma PeriodEnds(w: Wheel, i: nat, k: nat)
    requires 0 < w.n == |w.slots| && i == SlotAt(w.now, w.n)
    requires k <= DueLen(w.slots[i]) && (k < |w.slots[i]| ==> 0 < w.slots[i][k].cycle)
    ensures var p := Popped(w, i, k);
            i < |p.slots|
            && p.(slots := p.slots[i := Age(p.slots[i])]).(now := w.now + 1) == Process(w)
            && (p.slots[i] == [] ==> p.(now := w.now + 1) == Process(w))
            && Fired(w) == Firings(w.now, w.slots[i][..k])
  {
    var p := Popped(w, i, k);
    assert k == DueLen(w.slots[i]);
    if p.slots[i] == [] {
      assert Age(p.slots[i]) == [];
      assert p.slots[i := []] == p.slots;
    }
  }

  lemma TimePasses(w: Wheel)
    requires Inv(w, {})
    ensures Inv(w.(now := w.now + 1), {})
    ensures (w.now % U32 + 1) % U32 == (w.now + 1) % U32
  {
    assert Partition(w.(now := w.now + 1), {});
  }

  /** Empty lists mirror empty slots, before any handle was given out. */
  lemma EmptyListsMirror(m: seq<TmrObj>, lists: seq<TmrList>, slots: seq<seq<Timer>>)
    requires |lists| == |slots| && forall i :: 0 <= i < |slots| ==> slots[i] == [] && lists[i] == TmrList(NULL, 0)
    ensures Mirrors(m, lists, slots) && HandlesSound(m, slots, {})
  {}

  class TmrCtrl {
    const resolution: int
    const maxTicks: int
    const numOfPeriods: int
    const maxNumOfTmrs: int
    const pool: Pool
    const tmrList: array<TmrList>
    var periodsFromStart: int
    var numOfTmrs: int
    var ticks: int
    /** The wheel these structures represent. */
    ghost var model: Wheel
    /** The expiries reported so far. */
    ghost var log: seq<Firing>
    /** The blocks ever handed out. */
    ghost var issued: set<int>

    ghost predicate ValidWith(held: set<nat>)
      reads this, tmrList, pool, pool.freeList, pool.mem
    {
      && pool.Valid()
      && 5 <= resolution && maxTicks == resolution / 5 && 0 <= ticks
      && 0 < numOfPeriods < 0x8000_0000
      && model.n == numOfPeriods && model.size == pool.numOfBlock
      && Inv(model, held)
      && Mirrors(pool.mem[..], tmrList[..], model.slots)
      && HandlesSound(pool.mem[..], model.slots, issued)
      && (forall b :: b in held ==> b in issued)
      && model.free == pool.Queue()
      && periodsFromStart == model.now % U32
      && numOfTmrs == Total(model.slots)
    }

    ghost predicate Valid()
      reads this, tmrList, pool, pool.freeList, pool.mem
    {
      ValidWith({})
    }

    /** The state as the run model sees it. */
    ghost function State(): Ctrl
      reads this
    {
      Ctrl(model, resolution, maxTicks, ticks)
    }

    /** `tmrInit`; `phase` is the random initial `ticks`, `base` where the pool was allocated. */
    constructor (maxNumOfTmrs: int, resolution: int, longest: int, phase: nat, base: int)
      requires -8 <= maxNumOfTmrs && SIZEOF_TMR_OBJ * (maxNumOfTmrs + 10) < 0x8000_0000
      requires longest < 0x8000_0000 && 0 < base
      ensures Valid() && fresh(pool) && fresh(pool.freeList) && fresh(pool.mem) && fresh(tmrList)
      ensures State() == Init(maxNumOfTmrs, resolution, longest, phase)
      ensures resolution >= 5 ==> this.resolution == resolution
      ensures resolution < 5 ==> this.resolution == 5
      ensures maxTicks == this.resolution / 5 && ticks == phase && periodsFromStart == 0
      ensures longest < 10 * this.resolution ==> numOfPeriods == 10
      ensures 10 * this.resolution <= longest ==>
                numOfPeriods >= 10 && numOfPeriods * this.resolution <= longest < (numOfPeriods + 1) * this.resolution
      ensures pool.numOfBlock == maxNumOfTmrs + 10 && numOfTmrs == 0 && tmrList.Length == numOfPeriods
      ensures forall i :: 0 <= i < tmrList.Length ==> tmrList[i] == TmrList(NULL, 0)
      ensures log == [] && issued == {}
      ensures this.maxNumOfTmrs == maxNumOfTmrs
    {
      hide TruncDiv, Inv, Mirrors, HandlesSound;
      this.maxNumOfTmrs := maxNumOfTmrs;
      pool := new Pool(maxNumOfTmrs + 10, SIZEOF_TMR_OBJ, base);
      var res := resolution;
      if res < MSECONDS_PER_TICK { res := MSECONDS_PER_TICK; }
      this.resolution := res;
      maxTicks := res / MSECONDS_PER_TICK;
      ticks := phase;
      var n := TruncDiv(longest, res);
      if n < 10 { n := 10; }
      numOfPeriods := n;
      var list := new TmrList[n];
      tmrList := list;
      periodsFromStart := 0;
      numOfTmrs := 0;
      model := Init(maxNumOfTmrs, resolution, longest, phase).wheel;
      log := [];
      issued := {};
      new;
      for i := 0 to n
        invariant forall k :: 0 <= k < i ==> list[k] == TmrList(NULL, 0)
        modifies list
      {
        list[i] := TmrList(NULL, 0);
      }
      PeriodsFitInt(longest, res);
      PeriodsSettle(longest, res);
      InitIsValid(maxNumOfTmrs, resolution, longest, phase);
      TotalOfEmpty(model.slots);
      EmptyListsMirror(pool.mem[..], list[..], model.slots);
    }

    /** The pointer updates of `tmrReset` that take `pObj` out of its list. */
    method UnlinkPointers(pObj: nat)
      requires pObj < pool.mem.Length
      requires var o := pool.mem[pObj];
               (o.prev == NULL || 0 <= o.prev < pool.mem.Length) && o.prev != pObj
               && (o.next == NULL || 0 <= o.next < pool.mem.Length) && o.next != pObj
               && 0 <= o.index < tmrList.Length
      modifies tmrList, pool.mem
      ensures pool.mem[..] == UnlinkMem(old(pool.mem[..]), pObj)
      ensures tmrList[..] == UnlinkLists(old(tmrList[..]), old(pool.mem[pObj]))
    {
      var index := pool.mem[pObj].index;
      if pool.mem[pObj].prev != NULL {
        pool.mem[pool.mem[pObj].prev] := pool.mem[pool.mem[pObj].prev].(next := pool.mem[pObj].next);
      } else {
        tmrList[index] := tmrList[index].(head := pool.mem[pObj].next);
      }
      if pool.mem[pObj].next != NULL {
        pool.mem[pool.mem[pObj].next] := pool.mem[pool.mem[pObj].next].(prev := pool.mem[pObj].prev);
      }
      tmrList[index] := tmrList[index].(count := tmrList[index].count - 1);
      pool.mem[pObj] := pool.mem[pObj].(timerId := NULL);
    }

    /** `tmrReset` on an armed timer, first half: the block leaves its list. */
    method Unlink(pObj: nat)
      requires Valid() && IsLinked(model.slots, pObj)
      modifies this`numOfTmrs, this`model, tmrList, pool.mem
      ensures ValidWith({pObj}) && model == WheelModel.Unlink(old(model), pObj)
    {
      hide Inv, Mirrors, HandlesSound, UnlinkMem, UnlinkLists, WheelModel.Unlink;
      ghost var i, j :| At(model.slots, i, j) && model.slots[i][j].block == pObj;
      UnlinkStep(pool.mem[..], tmrList[..], model, i, j, issued);
      UnlinkPointers(pObj);
      numOfTmrs := numOfTmrs - 1;
      model := WheelModel.Unlink(model, pObj);
    }

    /** The walk of `tmrReset` to the first timer with at least `cycle` cycles. */
    method FindPlace(index: nat, cycle: int) returns (pNode: int, cNode: int)
      requires Mirrors(pool.mem[..], tmrList[..], model.slots) && index < |model.slots|
      ensures var p := InsertPos(model.slots[index], cycle);
              pNode == PrevAt(model.slots[index], p) && cNode == NextAt(model.slots[index], p)
    {
      hide Mirrors;
      ghost var L := model.slots[index];
      ghost var m, lists := pool.mem[..], tmrList[..];
      ghost var k: nat := 0;
      ListHead(m, lists, model.slots, index);
      cNode := tmrList[index].head;
      pNode := NULL;
      while cNode != NULL
        invariant k <= |L|
        invariant pNode == PrevAt(L, k) && cNode == NextAt(L, k)
        invariant forall j :: 0 <= j < k ==> L[j].cycle < cycle
        decreases |L| - k
      {
        ListNode(m, lists, model.slots, index, k);
        if pool.mem[cNode].cycle < cycle {
          pNode := cNode;
          cNode := pool.mem[cNode].next;
          k := k + 1;
        } else {
          break;
        }
      }
      InsertPosIsFirst(L, cycle, k);
    }

    /** The pointer updates of `tmrReset` that put `pObj` between `pNode` and `cNode`. */
    method LinkPointers(pObj: nat, pNode: int, cNode: int)
      requires pObj < pool.mem.Length && 0 <= pool.mem[pObj].index < tmrList.Length
      requires (pNode == NULL || 0 <= pNode < pool.mem.Length) && pNode != pObj
      requires (cNode == NULL || 0 <= cNode < pool.mem.Length) && cNode != pObj
      requires pNode == cNode ==> pNode == NULL
      modifies tmrList, pool.mem
      ensures var o := old(pool.mem[pObj]).(prev := pNode, next := cNode);
              pool.mem[..] == LinkMem(old(pool.mem[..]), pObj, o)
              && tmrList[..] == LinkLists(old(tmrList[..]), pObj, o)
    {
      var index := pool.mem[pObj].index;
      pool.mem[pObj] := pool.mem[pObj].(next := cNode);
      pool.mem[pObj] := pool.mem[pObj].(prev := pNode);
      if cNode != NULL {
        pool.mem[cNode] := pool.mem[cNode].(prev := pObj);
      }
      if pNode != NULL {
        pool.mem[pNode] := pool.mem[pNode].(next := pObj);
      } else {
        tmrList[index] := tmrList[index].(head := pObj);
      }
      tmrList[index] := tmrList[index].(count := tmrList[index].count + 1);
    }

    /** `tmrReset`, second half: the block in hand is filled in and joins the list of its slot. */
    method Link(pObj: nat, period: int, fp: int, param1: int)
      requires ValidWith({pObj})
      modifies this`numOfTmrs, this`model, tmrList, pool.mem
      ensures Valid() && model == Place(old(model), pObj, period, fp, param1)
    {
      hide Inv, Mirrors, HandlesSound, LinkMem, LinkLists, Place;
      HeldBlock(pool.mem[..], model, pObj, issued);
      ghost var m, o := pool.mem[..], PlacedObject(model, pObj, period, fp, param1);
      LinkStep(m, tmrList[..], model, pObj, period, fp, param1, issued, o.(prev := m[pObj].prev, next := m[pObj].next));
      var cycle := ToShort(TruncDiv(period, numOfPeriods));
      var index := ((period + periodsFromStart) % U32) % numOfPeriods;
      pool.mem[pObj] := pool.mem[pObj].(cycle := cycle, param1 := param1, fp := fp, timerId := pObj, index := index);
      assert pool.mem[..] == m[pObj := o.(prev := m[pObj].prev, next := m[pObj].next)];
      var pNode, cNode := FindPlace(index, cycle);
      LinkPointers(pObj, pNode, cNode);
      numOfTmrs := numOfTmrs + 1;
      model := Place(model, pObj, period, fp, param1);
    }

    /** `tmrReset`: (re)arm the timer named by `*pTmrId`, or allocate one and store it there. */
    method TmrReset(fp: int, mseconds: int, param1: int, pTmrId: TmrHandle?)
      requires Valid()
      requires pTmrId != null ==> pTmrId.id == NULL || pTmrId.id in issued
      modifies this`numOfTmrs, this`model, this`issued, tmrList
      modifies pool`first, pool`numOfFree, pool.mem
      modifies if pTmrId == null then {} else {pTmrId}
      ensures Valid()
      ensures pTmrId == null ==> model == old(model) && issued == old(issued)
      ensures model.now == old(model).now
      ensures pTmrId != null ==>
                (model, pTmrId.id) == Reset(old(model), old(pTmrId.id), TruncDiv(mseconds, resolution), fp, param1)
                && issued == old(issued) + if pTmrId.id == NULL then {} else {pTmrId.id}
      ensures ValidCtrl(old(State()))
              && (pTmrId != null ==> State() == Step(old(State()), Op.Arm(old(pTmrId.id), mseconds, fp, param1)).0)
    {
      hide Inv, Mirrors, HandlesSound, Reset;
      if pTmrId == null { return; }
      var period := TruncDiv(mseconds, resolution);
      LiveHandle(pool.mem[..], tmrList[..], model, pTmrId.id, issued);
      ResetCases(model, pTmrId.id, period, fp, param1);
      var pObj := pTmrId.id;
      if pObj != NULL && pool.mem[pObj].timerId == pTmrId.id {
        Unlink(pObj);
      } else {
        pObj := Allocate();
        pTmrId.id := pObj;
        if pObj == NULL { return; }
      }
      Link(pObj, period, fp, param1);
    }

    /** `memPoolMalloc` as `tmrReset` uses it: a block in hand, or NULL. */
    method Allocate() returns (pObj: int)
      requires Valid()
      modifies this`model, this`issued, pool`first, pool`numOfFree, pool.mem
      ensures old(model).free == [] ==>
                pObj == NULL && Valid() && model == old(model) && issued == old(issued)
      ensures old(model).free != [] ==>
                pObj == old(model).free[0] && ValidWith({pObj})
                && model == Take(old(model)) && issued == old(issued) + {pObj}
    {
      ghost var m := pool.mem[..];
      var pos := pool.Malloc();
      pObj := pool.BlockAt(pos);
      if model.free != [] {
        ghost var b := model.free[0];
        pool.CastRoundTrip(b);
        TakeStep(m, tmrList[..], model, issued);
        model := Take(model);
        issued := issued + {pObj};
      }
    }

    /** The pointer updates of `tmrProcessList` that take `header` off list `index`. */
    method PopPointers(index: nat, header: nat)
      requires index < tmrList.Length && header < pool.mem.Length
      requires var next := pool.mem[header].next;
               (next == NULL || 0 <= next < pool.mem.Length) && next != header
      modifies tmrList, pool.mem
      ensures pool.mem[..] == PopMem(old(pool.mem[..]), header)
      ensures var l := old(tmrList[index]);
              tmrList[..] == old(tmrList[..])[index := TmrList(old(pool.mem[header].next), l.count - 1)]
    {
      tmrList[index] := tmrList[index].(head := pool.mem[header].next);
      if pool.mem[header].next != NULL {
        pool.mem[pool.mem[header].next] := pool.mem[pool.mem[header].next].(prev := NULL);
      }
      tmrList[index] := tmrList[index].(count := tmrList[index].count - 1);
      pool.mem[header] := pool.mem[header].(timerId := NULL);
    }

    /** One round of `tmrProcessList`: the head of list `index` expires and its block is freed. */
    method ExpireHead(index: nat)
      requires Valid() && At(model.slots, index, 0)
      modifies this`numOfTmrs, this`model, this`log, tmrList
      modifies pool`numOfFree, pool.freeList, pool.mem
      ensures Valid() && model == Popped(old(model), index, 1)
      ensures log == old(log) + Firings(old(model).now, old(model).slots[index][..1])
    {
      hide Inv, Mirrors, HandlesSound, Popped, PopMem, Appended;
      ghost var w := model;
      ExpireStep(pool.mem[..], tmrList[..], w, index, issued);
      var header := tmrList[index].head;
      var fp, param1 := pool.mem[header].fp, pool.mem[header].param1;
      numOfTmrs := numOfTmrs - 1;
      PopPointers(index, header);
      log := log + [Firing(w.now, header, w.slots[index][0].stamp, fp, param1)];
      AddressIsFreed(pool.blockSize, pool.numOfBlock, header);
      pool.Free(pool.AddressOf(header));
      model := Popped(model, index, 1);
    }

    /** The inner loop of `tmrProcessList`: every timer of list `index` loses a cycle. */
    method DecrementCycles(index: nat)
      requires Valid() && index < |model.slots|
      modifies this`model, pool.mem
      ensures Valid() && model == old(model).(slots := old(model).slots[index := Age(old(model).slots[index])])
    {
      hide Inv, Mirrors, HandlesSound;
      ghost var m, lists, w, L := pool.mem[..], tmrList[..], model, model.slots[index];
      AgeStep(m, lists, model, index, issued);
      ghost var k: nat := 0;
      ListHead(m, lists, model.slots, index);
      var pObj := tmrList[index].head;
      while pObj != NULL
        invariant k <= |L| && pObj == NextAt(L, k)
        invariant pool.mem[..] == AgedMem(m, L, k)
        decreases |L| - k
        modifies pool.mem
      {
        ListNode(m, lists, w.slots, index, k);
        AgedOnlyCycles(m, L, k, pObj);
        pool.mem[pObj] := pool.mem[pObj].(cycle := pool.mem[pObj].cycle - 1);
        assert pool.mem[..] == AgedMem(m, L, k + 1);
        pObj := pool.mem[pObj].next;
        k := k + 1;
      }
      model := model.(slots := model.slots[index := Age(L)]);
    }

    /** `tmrProcessList`: one period passes. */
    method TmrProcessList()
      requires Valid()
      modifies this`periodsFromStart, this`numOfTmrs, this`model, this`log, tmrList
      modifies pool`numOfFree, pool.freeList, pool.mem
      ensures Valid() && model == Process(old(model))
      ensures log == old(log) + Fired(old(model))
      ensures model.now == old(model).now + 1 && periodsFromStart == (old(periodsFromStart) + 1) % 0x1_0000_0000
    {
      hide Inv, Mirrors, HandlesSound, Popped, Process, Fired, Firings, Age;
      ghost var w, log0 := model, log;
      LiveHandle(pool.mem[..], tmrList[..], w, NULL, issued);
      var index := periodsFromStart % numOfPeriods;
      ghost var L := w.slots[index];
      ghost var k: nat := 0;
      PoppedNothing(w, index);
      while true
        invariant Valid() && k <= DueLen(L) && model == Popped(w, index, k)
        invariant log == log0 + Firings(w.now, L[..k])
        decreases |L| - k
      {
        PoppedFacts(w, index, k);
        ListHead(pool.mem[..], tmrList[..], model.slots, index);
        var header := tmrList[index].head;
        if header == NULL {
          PeriodEnds(w, index, k);
          break;
        }
        ListNode(pool.mem[..], tmrList[..], model.slots, index, 0);
        if pool.mem[header].cycle > 0 {
          PeriodEnds(w, index, k);
          DecrementCycles(index);
          break;
        }
        ExpireHead(index);
        PoppedAgain(w, index, k);
        k := k + 1;
      }
      TimePasses(model);
      periodsFromStart := (periodsFromStart + 1) % U32;
      model := model.(now := model.now + 1);
    }

    /** `timerLoopFunc`, for this controller: one tick, and a period every `maxTicks` ticks. */
    method TimerLoopFunc()
      requires Valid()
      modifies this`ticks, this`periodsFromStart, this`numOfTmrs, this`model, this`log, tmrList
      modifies pool`numOfFree, pool.freeList, pool.mem
      ensures Valid()
      ensures old(ticks) + 1 < maxTicks ==>
                ticks == old(ticks) + 1 && model == old(model) && log == old(log) && periodsFromStart == old(periodsFromStart)
      ensures maxTicks <= old(ticks) + 1 ==>
                ticks == 0 && model.now == old(model).now + 1
                && periodsFromStart == (old(periodsFromStart) + 1) % 0x1_0000_0000
      ensures ValidCtrl(old(State())) && (State(), log) == (Step(old(State()), Tick).0, old(log) + Step(old(State()), Tick).1)
    {
      hide Inv, Mirrors, HandlesSound, Process, Fired;
      ticks := ticks + 1;
      if ticks >= maxTicks {
        TmrProcessList();
        ticks := 0;
      } else {
        assert log == log + [];
      }
    }

    static lemma PeriodsFitInt(longest: int, resolution: int)
      requires 5 <= resolution && longest < 0x8000_0000
      ensures TruncDiv(longest, resolution) < 0x8000_0000
    {
      if 0 <= longest { DivByPositive(longest, resolution); }
    }
  }
}
