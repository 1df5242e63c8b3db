/**
 * The meaning of a wheel: a flat set of armed timers with absolute deadlines.
 * `Store` reads it off the slot lists; the lemmas say what `tmrReset` and
 * `tmrProcessList` do to it.
 */
module DeadlineStore {
  import opened CInt
  import opened Deadlines
  import opened ExactExpiry
  import opened WheelModel
  import opened WheelInvariant

  datatype Armed = Armed(block: nat, due: nat, stamp: nat, fp: int, param: int)

  /** Timer `x` of slot `i` as an entry with its deadline. */
  function EntryOf(w: Wheel, i: int, x: Timer): (e: Armed)
    requires 0 <= i < w.n <= U32
    ensures w.now <= e.due
  {
    Armed(x.block, FireTime(w.now, i, x.cycle, w.n), x.stamp, x.fp, x.param)
  }

  ghost function Store(w: Wheel): (s: set<Armed>)
    requires 0 < w.n <= U32 && |w.slots| == w.n
    ensures forall e :: e in s ==> w.now <= e.due
  {
    set i: int, x: Timer | 0 <= i < w.n && x in w.slots[i] :: EntryOf(w, i, x)
  }

  /** The report a deadline-keeping store would make for `e`. */
  function FiringOf(e: Armed): Firing {
    Firing(e.due, e.block, e.stamp, e.fp, e.param)
  }

  /** A block, and likewise a stamp, stands for at most one timer. */
  lemma KeysAreUnique(slots: seq<seq<Timer>>, i: int, x: Timer, i': int, x': Timer)
    requires Distinct(slots)
    requires 0 <= i < |slots| && x in slots[i]
    requires 0 <= i' < |slots| && x' in slots[i']
    requires x.block == x'.block || x.stamp == x'.stamp
    ensures i == i' && x == x'
  {
    var j :| 0 <= j < |slots[i]| && slots[i][j] == x;
    var j' :| 0 <= j' < |slots[i']| && slots[i'][j'] == x';
    assert At(slots, i, j) && At(slots, i', j');
  }

  /** A block, and likewise a stamp, stands for at most one entry. */
  lemma StoreKeys(w: Wheel, e: Armed, f: Armed)
    requires 0 < w.n <= U32 && |w.slots| == w.n && Distinct(w.slots)
    requires e in Store(w) && f in Store(w)
    requires e.block == f.block || e.stamp == f.stamp
    ensures e == f
  {
    var i, x :| 0 <= i < w.n && x in w.slots[i] && e == EntryOf(w, i, x);
    var i', x' :| 0 <= i' < w.n && x' in w.slots[i'] && f == EntryOf(w, i', x');
    KeysAreUnique(w.slots, i, x, i', x');
  }

  lemma StoreBlocks(w: Wheel, b: nat)
    requires 0 < w.n <= U32 && |w.slots| == w.n
    ensures IsLinked(w.slots, b) <==> exists e :: e in Store(w) && e.block == b
  {
    if i, j :| At(w.slots, i, j) && w.slots[i][j].block == b {
      assert EntryOf(w, i, w.slots[i][j]) in Store(w);
    }
    if e :| e in Store(w) && e.block == b {
      var i, x :| 0 <= i < w.n && x in w.slots[i] && e == EntryOf(w, i, x);
      var j :| 0 <= j < |w.slots[i]| && w.slots[i][j] == x;
      assert At(w.slots, i, j) && w.slots[i][j].block == b;
    }
  }

  lemma StoreDependsOnSlots(w: Wheel, r: Wheel)
    requires 0 < w.n <= U32 && |w.slots| == w.n
    requires r.n == w.n && r.slots == w.slots && r.now == w.now
    ensures Store(r) == Store(w)
  {
    assert forall i, x :: 0 <= i < w.n && x in w.slots[i] ==> EntryOf(w, i, x) == EntryOf(r, i, x);
  }

  lemma {:induction false} MembersAfterRemove(L: seq<Timer>, b: int, x: Timer)
    ensures x in RemoveBlock(L, b) <==> x in L && x.block != b
  {
    if L != [] {
      MembersAfterRemove(L[1..], b, x);
    }
  }

  lemma StoreOfUnlink(w: Wheel, b: int)
    requires 0 < w.n <= U32 && |w.slots| == w.n
    ensures Store(Unlink(w, b)) == set e | e in Store(w) && e.block != b
  {
    var r := Unlink(w, b);
    forall i, x | 0 <= i < w.n
      ensures x in r.slots[i] <==> x in w.slots[i] && x.block != b
    {
      MembersAfterRemove(w.slots[i], b, x);
    }
    assert forall i, x :: 0 <= i < w.n ==> EntryOf(w, i, x) == EntryOf(r, i, x);
  }

  lemma StoreOfArm(w: Wheel, b: nat, period: int, fp: int, param: int)
    requires 0 < w.n <= U32 && |w.slots| == w.n
    ensures Store(Place(w, b, period, fp, param))
         == Store(w) + {Armed(b, ExpiryOf(w.now, period, w.n), w.stamp, fp, param)}
  {
    var s := ArmedSlot(w.now, period, w.n);
    var y := Timer(b, ArmedCycle(period, w.n), w.stamp, fp, param);
    var r := Place(w, b, period, fp, param);
    var p := InsertPos(w.slots[s], y.cycle);
    assert w.slots[s] == w.slots[s][..p] + w.slots[s][p..];
    assert forall i, x :: 0 <= i < w.n ==> (x in r.slots[i] <==> x in w.slots[i] || (i == s && x == y));
    assert forall i, x :: 0 <= i < w.n ==> EntryOf(w, i, x) == EntryOf(r, i, x);
    assert EntryOf(r, s, y) in Store(r);
  }

  /** A sorted insertion leaves the timers of other blocks in the same order. */
  lemma {:induction false} InsertKeepsOthers(L: seq<Timer>, x: Timer)
    ensures RemoveBlock(InsertSorted(L, x), x.block) == RemoveBlock(L, x.block)
  {
    hide InsertSorted, RemoveBlock;
    InsertedWhere(L, x);
    if L == [] || x.cycle <= L[0].cycle {
      RemoveFromCons(x, L, x.block);
    } else {
      InsertKeepsOthers(L[1..], x);
      RemoveFromCons(L[0], InsertSorted(L[1..], x), x.block);
      RemoveFromCons(L[0], L[1..], x.block);
      assert [L[0]] + L[1..] == L;
    }
  }

  lemma InsertedWhere(L: seq<Timer>, x: Timer)
    ensures InsertSorted(L, x) ==
            if L == [] || x.cycle <= L[0].cycle then [x] + L else [L[0]] + InsertSorted(L[1..], x)
  {}

  lemma RemoveFromCons(y: Timer, L: seq<Timer>, b: int)
    ensures RemoveBlock([y] + L, b) == if y.block == b then RemoveBlock(L, b) else [y] + RemoveBlock(L, b)
  {
    assert ([y] + L)[1..] == L;
  }

  lemma {:induction false} RemoveTwice(L: seq<Timer>, b: int)
    ensures RemoveBlock(RemoveBlock(L, b), b) == RemoveBlock(L, b)
  {
    if L != [] {
      RemoveTwice(L[1..], b);
    }
  }

  /** Arming moves no other timer: every slot list without the armed block stays as it was. */
  lemma ResetKeepsOrderOfOthers(w: Wheel, handle: int, period: int, fp: int, param: int, i: nat)
    requires Inv(w, {}) && i < w.n
    ensures var (r, h) := Reset(w, handle, period, fp, param);
            i < |r.slots| && RemoveBlock(r.slots[i], h) == RemoveBlock(w.slots[i], h)
  {
    var (r, h) := Reset(w, handle, period, fp, param);
    if h >= 0 {
      var v := if handle >= 0 && IsLinked(w.slots, handle) then Unlink(w, handle) else Take(w);
      InsertKeepsOthers(v.slots[i], Timer(h, ArmedCycle(period, w.n), w.stamp, fp, param));
      RemoveTwice(w.slots[i], h);
    }
  }

  /** Some entry sits on block `b`. */
  ghost predicate Pending(w: Wheel, b: int)
    requires 0 < w.n <= U32 && |w.slots| == w.n
  {
    exists e :: e in Store(w) && e.block == b
  }

  /**
   * Re-arming: the handle's entry is replaced by one due at `ExpiryOf`; the pool, the
   * other deadlines and the order of the other timers stay.
   */
  lemma RearmRefinesStore(w: Wheel, handle: int, period: int, fp: int, param: int)
    requires Inv(w, {}) && Pending(w, handle)
    ensures var (r, h) := Reset(w, handle, period, fp, param);
            h == handle >= 0
            && r.free == w.free && |r.slots| == w.n
            && (forall i :: 0 <= i < w.n ==> RemoveBlock(r.slots[i], h) == RemoveBlock(w.slots[i], h))
            && Store(r) == (set e | e in Store(w) && e.block != h)
                           + {Armed(h, ExpiryOf(w.now, period, w.n), w.stamp, fp, param)}
  {
    StoreBlocks(w, handle);
    StoreOfUnlink(w, handle);
    StoreOfArm(Unlink(w, handle), handle, period, fp, param);
    forall i | 0 <= i < w.n
      ensures RemoveBlock(Reset(w, handle, period, fp, param).0.slots[i], handle) == RemoveBlock(w.slots[i], handle)
    {
      ResetKeepsOrderOfOthers(w, handle, period, fp, param, i);
    }
  }

  /** A handle without pending timer gets the next free block; one entry is added. */
  lemma NewTimerRefinesStore(w: Wheel, handle: int, period: int, fp: int, param: int)
    requires Inv(w, {}) && !Pending(w, handle) && w.free != []
    ensures var (r, h) := Reset(w, handle, period, fp, param);
            h >= 0 && w.free == [h] + r.free && !Pending(w, h)
            && Store(r) == Store(w) + {Armed(h, ExpiryOf(w.now, period, w.n), w.stamp, fp, param)}
  {
    var b := w.free[0];
    if handle >= 0 { StoreBlocks(w, handle); }
    StoreBlocks(w, b);
    StoreDependsOnSlots(w, Take(w));
    StoreOfArm(Take(w), b, period, fp, param);
  }

  /** With the pool exhausted the call leaves NULL in the handle and touches nothing. */
  lemma ExhaustedResetChangesNothing(w: Wheel, handle: int, period: int, fp: int, param: int)
    requires Inv(w, {}) && !Pending(w, handle) && w.free == []
    ensures Reset(w, handle, period, fp, param) == (w, NULL)
  {
    if handle >= 0 { StoreBlocks(w, handle); }
  }

  /**
   * `tmrReset` on the store: a call that succeeds replaces or adds exactly one entry,
   * due at `ExpiryOf`, and no other deadline changes; a call fails only when the handle
   * has no pending timer and no block is free.
   */
  lemma ResetRefinesStore(w: Wheel, handle: int, period: int, fp: int, param: int)
    requires Inv(w, {})
    ensures var (r, h) := Reset(w, handle, period, fp, param);
            (h == NULL <==> !Pending(w, handle) && w.free == [])
            && (h == NULL ==> r == w)
            && (h != NULL ==>
                  h >= 0
                  && Store(r) == (set e | e in Store(w) && e.block != h)
                                 + {Armed(h, ExpiryOf(w.now, period, w.n), w.stamp, fp, param)})
  {
    if Pending(w, handle) {
      RearmRefinesStore(w, handle, period, fp, param);
    } else if w.free == [] {
      ExhaustedResetChangesNothing(w, handle, period, fp, param);
    } else {
      NewTimerRefinesStore(w, handle, period, fp, param);
      var h := w.free[0];
      assert (set e | e in Store(w) && e.block != h) == Store(w);
    }
  }

  // ----- cycle counts -----

  ghost predicate CyclesNatural(w: Wheel) {
    forall i, j :: At(w.slots, i, j) ==> 0 <= w.slots[i][j].cycle
  }

  /** Removing a block and inserting a timer with a natural cycle count keep the counts natural. */
  lemma ResetKeepsCycles(w: Wheel, handle: int, period: int, fp: int, param: int)
    requires Inv(w, {}) && CyclesNatural(w) && 0 <= ArmedCycle(period, w.n)
    ensures CyclesNatural(Reset(w, handle, period, fp, param).0)
  {
    var r := Reset(w, handle, period, fp, param).0;
    forall i, j | At(r.slots, i, j)
      ensures 0 <= r.slots[i][j].cycle
    {
      var x := r.slots[i][j];
      assert x in r.slots[i];
      ResetMembers(w, handle, period, fp, param, i, x);
      if x in w.slots[i] {
        var k :| 0 <= k < |w.slots[i]| && w.slots[i][k] == x;
        assert At(w.slots, i, k);
      }
    }
  }

  lemma ResetMembers(w: Wheel, handle: int, period: int, fp: int, param: int, i: nat, x: Timer)
    requires Inv(w, {}) && i < w.n
    ensures var (r, h) := Reset(w, handle, period, fp, param);
            i < |r.slots| && (x in r.slots[i] ==> x in w.slots[i] || x.cycle == ArmedCycle(period, w.n))
  {
    var (r, h) := Reset(w, handle, period, fp, param);
    if h >= 0 {
      var v := if handle >= 0 && IsLinked(w.slots, handle) then Unlink(w, handle) else Take(w);
      MembersAfterRemove(w.slots[i], handle, x);
      var p := InsertPos(v.slots[i], ArmedCycle(period, w.n));
      assert x in v.slots[i][..p] || x in v.slots[i][p..] ==> x in v.slots[i];
    }
  }

  /** The bulk decrement never makes a count negative: due timers have left the list before it. */
  lemma ProcessKeepsCycles(w: Wheel)
    requires Inv(w, {}) && CyclesNatural(w)
    ensures CyclesNatural(Process(w))
  {
    var r := Process(w);
    forall i, j | At(r.slots, i, j)
      ensures 0 <= r.slots[i][j].cycle
    {
      var y := r.slots[i][j];
      assert y in r.slots[i];
      MembersBeforeProcess(w, i, y);
      if i != SlotAt(w.now, w.n) {
        var k :| 0 <= k < |w.slots[i]| && w.slots[i][k] == y;
        assert At(w.slots, i, k);
      }
    }
  }

  /** With the list in order, the due timers of a slot are exactly its first `DueLen` ones. */
  lemma DueIsPrefix(L: seq<Timer>, j: nat)
    requires Ordered(L) && j < |L|
    ensures j < DueLen(L) <==> L[j].cycle <= 0
  {
    hide DueLen, Ordered;
    DueLenIs(L);
    if DueLen(L) < j { EarlierFirst(L, DueLen(L), j); }
  }

  lemma DueLenIs(L: seq<Timer>)
    ensures DueLen(L) <= |L| && (DueLen(L) < |L| ==> 0 < L[DueLen(L)].cycle)
    ensures forall j :: 0 <= j < DueLen(L) ==> L[j].cycle <= 0
  {}

  lemma EarlierFirst(L: seq<Timer>, j: nat, k: nat)
    requires Ordered(L) && j < k < |L|
    ensures Before(L[j], L[k])
  {}

  /** Which timers one period expires, and what it leaves in the slots. */
  lemma MembersAfterProcess(w: Wheel, i: int, x: Timer)
    requires Inv(w, {}) && 0 <= i < w.n && x in w.slots[i]
    ensures var s := SlotAt(w.now, w.n);
            var L := w.slots[s];
            var r := Process(w).slots;
            (i != s ==> x in r[i])
            && (i == s ==> (x in L[..DueLen(L)] <==> x.cycle <= 0)
                           && (0 < x.cycle ==> x.(cycle := x.cycle - 1) in r[i]))
  {
    var s := SlotAt(w.now, w.n);
    if i == s {
      SplitByDue(w.slots[s], x);
    }
  }

  /** A slot list split at `DueLen`: the due ones, and the rest one cycle older. */
  lemma SplitByDue(L: seq<Timer>, x: Timer)
    requires Ordered(L) && x in L
    ensures x in L[..DueLen(L)] <==> x.cycle <= 0
    ensures 0 < x.cycle ==> x.(cycle := x.cycle - 1) in Age(L[DueLen(L)..])
  {
    hide Ordered, Age;
    var j :| 0 <= j < |L| && L[j] == x;
    DueIsPrefix(L, j);
    PrefixIsDue(L, x);
    if DueLen(L) <= j { AgedMember(L[DueLen(L)..], j - DueLen(L)); }
  }

  lemma PrefixIsDue(L: seq<Timer>, x: Timer)
    ensures x in L[..DueLen(L)] ==> x.cycle <= 0
  {
    var k := DueLen(L);
    assert forall j :: 0 <= j < k ==> L[..k][j] == L[j];
  }

  lemma AgedMember(L: seq<Timer>, j: nat)
    requires j < |L|
    ensures L[j].(cycle := L[j].cycle - 1) in Age(L)
  {
    assert Age(L)[j] == L[j].(cycle := L[j].cycle - 1);
  }

  /** The same in terms of deadlines: due now means expired, and every other deadline stays. */
  lemma SlotAfterProcess(w: Wheel, i: int, x: Timer)
    requires Inv(w, {}) && 0 <= i < w.n && x in w.slots[i]
    ensures var s := SlotAt(w.now, w.n);
            var e := EntryOf(w, i, x);
            var r := Process(w);
            (e.due == w.now <==> i == s && x.cycle <= 0)
            && (e.due == w.now <==> i == s && x in w.slots[s][..DueLen(w.slots[s])])
            && (e.due != w.now ==>
                  var y := if i == s then x.(cycle := x.cycle - 1) else x;
                  y in r.slots[i] && EntryOf(r, i, y) == e)
  {
    MembersAfterProcess(w, i, x);
    FireTimeStep(w.now, i, x.cycle, w.n);
  }

  lemma MembersBeforeProcess(w: Wheel, i: int, y: Timer)
    requires Inv(w, {}) && 0 <= i < w.n && y in Process(w).slots[i]
    ensures if i == SlotAt(w.now, w.n) then y.(cycle := y.cycle + 1) in w.slots[i] && 0 <= y.cycle
            else y in w.slots[i]
  {
    if i == SlotAt(w.now, w.n) {
      MembersBeforeAge(w.slots[i], y);
    }
  }

  lemma MembersBeforeAge(L: seq<Timer>, y: Timer)
    requires Ordered(L) && y in Age(L[DueLen(L)..])
    ensures y.(cycle := y.cycle + 1) in L && 0 <= y.cycle
  {
    hide Ordered;
    var k := DueLen(L);
    var j :| 0 <= j < |L| - k && Age(L[k..])[j] == y;
    assert L[k + j] == y.(cycle := y.cycle + 1);
    DueIsPrefix(L, k + j);
  }

  /** Every timer of the wheel after one period was there before it. */
  lemma SlotBeforeProcess(w: Wheel, i: int, y: Timer)
    requires Inv(w, {}) && 0 <= i < w.n && y in Process(w).slots[i]
    ensures var x := if i == SlotAt(w.now, w.n) then y.(cycle := y.cycle + 1) else y;
            x in w.slots[i] && EntryOf(w, i, x) == EntryOf(Process(w), i, y)
            && EntryOf(w, i, x).due != w.now
  {
    MembersBeforeProcess(w, i, y);
    SlotAfterProcess(w, i, if i == SlotAt(w.now, w.n) then y.(cycle := y.cycle + 1) else y);
  }

  /**
   * `tmrProcessList` on the store: exactly the entries due now leave it, every other
   * deadline stays.
   */
  lemma ProcessRefinesStore(w: Wheel)
    requires Inv(w, {})
    ensures Inv(Process(w), {})
    ensures Store(Process(w)) == set e | e in Store(w) && e.due != w.now
  {
    var r := Process(w);
    ProcessKeepsInv(w);
    forall e | e in Store(r)
      ensures e in Store(w) && e.due != w.now
    {
      var i, y :| 0 <= i < w.n && y in r.slots[i] && e == EntryOf(r, i, y);
      SlotBeforeProcess(w, i, y);
    }
    forall e | e in Store(w) && e.due != w.now
      ensures e in Store(r)
    {
      var i, x :| 0 <= i < w.n && x in w.slots[i] && e == EntryOf(w, i, x);
      SlotAfterProcess(w, i, x);
    }
  }

  lemma MembersOfFirings(at: nat, L: seq<Timer>, f: Firing)
    ensures f in Firings(at, L) <==>
            exists x :: x in L && f == Firing(at, x.block, x.stamp, x.fp, x.param)
  {
    if j :| 0 <= j < |L| && Firings(at, L)[j] == f {
      assert L[j] in L;
    }
    if x :| x in L && f == Firing(at, x.block, x.stamp, x.fp, x.param) {
      var j :| 0 <= j < |L| && L[j] == x;
      assert Firings(at, L)[j] == f;
    }
  }

  /** `tmrProcessList` reports exactly the entries due now. */
  lemma FiredAreTheDue(w: Wheel, f: Firing)
    requires Inv(w, {})
    ensures f in Fired(w) <==> exists e :: e in Store(w) && e.due == w.now && f == FiringOf(e)
  {
    var s := SlotAt(w.now, w.n);
    var L := w.slots[s];
    var D := L[..DueLen(L)];
    MembersOfFirings(w.now, D, f);
    if x :| x in D && f == Firing(w.now, x.block, x.stamp, x.fp, x.param) {
      SlotAfterProcess(w, s, x);
      assert EntryOf(w, s, x) in Store(w);
    }
    if e :| e in Store(w) && e.due == w.now && f == FiringOf(e) {
      var i, x :| 0 <= i < w.n && x in w.slots[i] && e == EntryOf(w, i, x);
      SlotAfterProcess(w, i, x);
    }
  }

  /** No timer is reported twice in one call. */
  lemma FiredOnce(w: Wheel, j: nat, k: nat)
    requires Inv(w, {})
    requires j < |Fired(w)| && k < |Fired(w)|
    requires Fired(w)[j].stamp == Fired(w)[k].stamp || Fired(w)[j].block == Fired(w)[k].block
    ensures j == k
  {
    var s := SlotAt(w.now, w.n);
    assert At(w.slots, s, j) && At(w.slots, s, k);
  }

  /**
   * The exact firing order within one call: of two due timers the one armed later is
   * reported first if and only if its cycle count is not the greater one. Counts differ
   * only below 0, because a natural count has run down to 0 when it is due.
   */
  lemma LaterArmedFirstIff(w: Wheel, j: nat, k: nat)
    requires Inv(w, {})
    requires j < |Fired(w)| && k < |Fired(w)|
    requires Fired(w)[j].stamp < Fired(w)[k].stamp
    ensures var L := w.slots[SlotAt(w.now, w.n)];
            L[j].cycle <= 0 && L[k].cycle <= 0
            && (k < j <==> L[k].cycle <= L[j].cycle)
  {
    var L := w.slots[SlotAt(w.now, w.n)];
    if j < k { assert Before(L[j], L[k]); } else { assert Before(L[k], L[j]); }
  }

  /** With natural cycle counts, one call reports the due timers in reverse order of their latest arming. */
  lemma FiredLatestArmedFirst(w: Wheel, j: nat, k: nat)
    requires Inv(w, {}) && CyclesNatural(w)
    requires j < k < |Fired(w)|
    ensures Fired(w)[k].stamp < Fired(w)[j].stamp
  {
    var i := SlotAt(w.now, w.n);
    assert At(w.slots, i, j) && At(w.slots, i, k);
    assert Before(w.slots[i][j], w.slots[i][k]);
  }
}
