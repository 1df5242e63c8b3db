/**
 * The timing wheel on values: per slot the list of armed timers with their remaining
 * cycles, and the queue of free blocks. The controller class in `TmrController` is proved
 * to compute exactly these functions on its linked lists.
 */
module WheelModel {
  import opened Sequences
  import opened CInt
  import opened Deadlines
  import opened ExactExpiry

  const NULL: int := -1

  /** An armed timer. `stamp` numbers armings; it is history, the C struct has no such field. */
  datatype Timer = Timer(block: nat, cycle: int, stamp: nat, fp: int, param: int)

  /** `now` counts the processed periods without wrapping; `size` is the number of blocks. */
  datatype Wheel = Wheel(n: nat, size: nat, now: nat, stamp: nat, slots: seq<seq<Timer>>, free: seq<nat>)

  /** One expiry: the period, the block handed to the callback, and the callback. */
  datatype Firing = Firing(at: nat, block: nat, stamp: nat, fp: int, param: int)

  predicate At(slots: seq<seq<Timer>>, i: int, j: int) {
    0 <= i < |slots| && 0 <= j < |slots[i]|
  }

  ghost predicate IsLinked(slots: seq<seq<Timer>>, b: int) {
    exists i, j :: At(slots, i, j) && slots[i][j].block == b
  }

  /** No block and no stamp occurs twice. */
  ghost predicate Distinct(slots: seq<seq<Timer>>) {
    forall i, j, i', j' :: At(slots, i, j) && At(slots, i', j')
      && (slots[i][j].block == slots[i'][j'].block || slots[i][j].stamp == slots[i'][j'].stamp)
      ==> i == i' && j == j'
  }

  /** List order: fewer cycles first, and the latest armed first among equals. */
  predicate Before(x: Timer, y: Timer) {
    x.cycle < y.cycle || (x.cycle == y.cycle && y.stamp < x.stamp)
  }

  ghost predicate Ordered(L: seq<Timer>) {
    forall j, k :: 0 <= j < k < |L| ==> Before(L[j], L[k])
  }

  /** Free, linked and held blocks split `0..size`. */
  ghost predicate Partition(w: Wheel, held: set<nat>) {
    && NoDuplicates(w.free)
    && (forall b: nat :: b < w.size <==> b in w.free || b in held || IsLinked(w.slots, b))
    && (forall b: nat :: b in w.free ==> b !in held && !IsLinked(w.slots, b))
    && (forall b: nat :: b in held ==> !IsLinked(w.slots, b))
  }

  function Total(slots: seq<seq<Timer>>): nat {
    if slots == [] then 0 else |slots[0]| + Total(slots[1..])
  }

  /** What every operation keeps; `held` are the blocks an operation has in hand. */
  ghost predicate Inv(w: Wheel, held: set<nat>) {
    && 0 < w.n <= U32
    && |w.slots| == w.n
    && Distinct(w.slots)
    && (forall i :: 0 <= i < w.n ==> Ordered(w.slots[i]))
    && (forall i, j :: At(w.slots, i, j) ==> w.slots[i][j].stamp < w.stamp)
    && Partition(w, held)
    && Total(w.slots) + |w.free| + |held| == w.size
  }

  // ----- the operations -----

  function RemoveBlock(L: seq<Timer>, b: int): (r: seq<Timer>)
    ensures |r| <= |L|
  {
    if L == [] then []
    else if L[0].block == b then RemoveBlock(L[1..], b)
    else [L[0]] + RemoveBlock(L[1..], b)
  }

  /** Take block `b` out of whichever list holds it. */
  function Unlink(w: Wheel, b: int): (r: Wheel)
    ensures |r.slots| == |w.slots|
  {
    w.(slots := seq(|w.slots|, i requires 0 <= i < |w.slots| => RemoveBlock(w.slots[i], b)))
  }

  /** How many timers at the front have fewer than `c` cycles left. */
  function InsertPos(L: seq<Timer>, c: int): (p: nat)
    ensures p <= |L|
    ensures forall j :: 0 <= j < p ==> L[j].cycle < c
    ensures p < |L| ==> c <= L[p].cycle
  {
    if L != [] && L[0].cycle < c then 1 + InsertPos(L[1..], c) else 0
  }

  function With(L: seq<Timer>, p: nat, x: Timer): (r: seq<Timer>)
    requires p <= |L|
    ensures |r| == |L| + 1
    ensures forall k :: 0 <= k < |r| ==> r[k] == if k < p then L[k] else if k == p then x else L[k - 1]
  {
    L[..p] + [x] + L[p..]
  }

  function InsertSorted(L: seq<Timer>, x: Timer): (r: seq<Timer>)
    ensures |r| == |L| + 1
  {
    With(L, InsertPos(L, x.cycle), x)
  }

  /** Put a held block into the slot and with the cycle count its delay asks for. */
  function Place(w: Wheel, b: nat, period: int, fp: int, param: int): (r: Wheel)
    requires 0 < w.n && |w.slots| == w.n
  {
    var i := ArmedSlot(w.now, period, w.n);
    var x := Timer(b, ArmedCycle(period, w.n), w.stamp, fp, param);
    w.(slots := w.slots[i := InsertSorted(w.slots[i], x)], stamp := w.stamp + 1)
  }

  /** The next free block, taken off the queue. */
  function Take(w: Wheel): Wheel
    requires w.free != []
  {
    w.(free := w.free[1..])
  }

  /** `tmrReset`: the new wheel and the value left in the handle. */
  ghost function Reset(w: Wheel, handle: int, period: int, fp: int, param: int): (r: (Wheel, int))
    requires 0 < w.n && |w.slots| == w.n
  {
    if handle >= 0 && IsLinked(w.slots, handle) then
      (Place(Unlink(w, handle), handle, period, fp, param), handle)
    else if w.free == [] then (w, NULL)
    else (Place(Take(w), w.free[0], period, fp, param), w.free[0])
  }

  /** How many timers at the front have no cycle left. */
  function DueLen(L: seq<Timer>): (k: nat)
    ensures k <= |L|
    ensures forall j :: 0 <= j < k ==> L[j].cycle <= 0
    ensures k < |L| ==> 0 < L[k].cycle
  {
    if L != [] && L[0].cycle <= 0 then 1 + DueLen(L[1..]) else 0
  }

  function Age(L: seq<Timer>): (r: seq<Timer>)
    ensures |r| == |L|
  {
    seq(|L|, j requires 0 <= j < |L| => L[j].(cycle := L[j].cycle - 1))
  }

  function Blocks(L: seq<Timer>): (r: seq<nat>)
    ensures |r| == |L|
  {
    seq(|L|, j requires 0 <= j < |L| => L[j].block)
  }

  function Firings(at: nat, L: seq<Timer>): (r: seq<Firing>)
    ensures |r| == |L|
  {
    seq(|L|, j requires 0 <= j < |L| => Firing(at, L[j].block, L[j].stamp, L[j].fp, L[j].param))
  }

  /** The first `k` timers of slot `i` expired and their blocks returned. */
  function Popped(w: Wheel, i: nat, k: nat): Wheel
    requires i < |w.slots| && k <= |w.slots[i]|
  {
    w.(slots := w.slots[i := w.slots[i][k..]], free := w.free + Blocks(w.slots[i][..k]))
  }

  /** `tmrProcessList`: expire the due timers of the current slot, age the rest, advance. */
  function Process(w: Wheel): Wheel
    requires 0 < w.n && |w.slots| == w.n
  {
    var i := SlotAt(w.now, w.n);
    var p := Popped(w, i, DueLen(w.slots[i]));
    p.(slots := p.slots[i := Age(p.slots[i])], now := w.now + 1)
  }

  /** What `tmrProcessList` reports, in order. */
  function Fired(w: Wheel): seq<Firing>
    requires 0 < w.n && |w.slots| == w.n
  {
    var L := w.slots[SlotAt(w.now, w.n)];
    Firings(w.now, L[..DueLen(L)])
  }
}
