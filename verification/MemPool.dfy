/** The block pool: a ring buffer of free block numbers over one memory area. */
module MemPool {
  import opened Sequences
  import opened CInt
  import opened WheelModel

  /**
   * The contents of one block, the C struct `tmr_obj_t`. Pointers to blocks are block
   * numbers, `NULL` being none; `fp` and `param1` are opaque words.
   */
  datatype TmrObj = TmrObj(param1: int, fp: int, timerId: int, cycle: int, prev: int, next: int, index: int)

  /** What `memset(.., 0, ..)` leaves. */
  const ZEROED := TmrObj(0, 0, NULL, 0, NULL, NULL, 0)

  const NULL_ADDRESS: int := 0

  // ----- the ring -----

  /** The array index of entry `k` of the window. */
  function Index(first: nat, k: nat, n: nat): (i: nat)
    requires 0 < n
    ensures i < n
  {
    (first + k) % n
  }

  /** The ring window `[first, first + count)` as a queue. */
  function Ring(f: seq<nat>, first: nat, count: nat): (q: seq<nat>)
    requires |f| > 0
    ensures |q| == count
  {
    seq(count, k requires 0 <= k < count => f[Index(first, k, |f|)])
  }

  lemma IndexWraps(first: nat, k: nat, n: nat)
    requires 0 < n && first + k < 2 * n
    ensures Index(first, k, n) == if first + k < n then first + k else first + k - n
  {
    if first + k < n { DivModUnique(first + k, n, 0, first + k); } else { DivModUnique(first + k, n, 1, first + k - n); }
  }

  lemma IndexAdvances(first: nat, k: nat, n: nat)
    requires 0 < n
    ensures Index(Index(first, 1, n), k, n) == Index(first, k + 1, n)
  {
    DivMod(first + 1, n);
    ModShift(Index(first, 1, n) + k, (first + 1) / n, n);
  }

  /** Advancing `first` takes the head of the queue. */
  lemma RingTake(f: seq<nat>, first: nat, count: nat)
    requires first < |f| && 0 < count
    ensures Ring(f, Index(first, 1, |f|), count - 1) == Ring(f, first, count)[1..]
    ensures Ring(f, first, count)[0] == f[first]
  {
    IndexWraps(first, 0, |f|);
    forall k: nat | k < count - 1
      ensures Index(Index(first, 1, |f|), k, |f|) == Index(first, k + 1, |f|)
    {
      IndexAdvances(first, k, |f|);
    }
  }

  /** In a ring with `n` places, entry `j` and the place behind `count` entries are the same. */
  predicate SharesPlace(count: nat, j: nat, n: nat)
    requires 0 < n
  {
    (count - j) % n == 0
  }

  /**
   * The queue after a write behind the window of a ring with `n` places: the block is
   * appended, and overwrites the entries a whole number of turns before it, if there are any.
   */
  function Appended(q: seq<nat>, n: nat, x: nat): (r: seq<nat>)
    requires 0 < n
    ensures |r| == |q| + 1 && r[|q|] == x
  {
    seq(|q| + 1, j requires 0 <= j <= |q| => if j == |q| || SharesPlace(|q|, j, n) then x else q[j])
  }

  /** What the write behind the window does, however full the ring is. */
  lemma RingPut(f: seq<nat>, first: nat, count: nat, x: nat)
    requires first < |f|
    ensures Ring(f[Index(first, count, |f|) := x], first, count + 1) == Appended(Ring(f, first, count), |f|, x)
  {
    forall k: nat | k < count
      ensures Index(first, k, |f|) == Index(first, count, |f|) <==> SharesPlace(count, k, |f|)
    {
      SameRemainder(first + k, first + count, |f|);
    }
  }

  /** While the ring is not full, nothing is overwritten. */
  lemma AppendedFits(q: seq<nat>, n: nat, x: nat)
    requires |q| < n
    ensures Appended(q, n, x) == q + [x]
  {
    forall j: nat | j < |q|
      ensures !SharesPlace(|q|, j, n)
    {
      DivModUnique(|q| - j, n, 0, |q| - j);
    }
    hide SharesPlace;
  }

  /** Only the new block joins. */
  lemma AppendedMembers(q: seq<nat>, n: nat, x: nat)
    requires 0 < n
    ensures forall b :: b in Appended(q, n, x) ==> b == x || b in q
  {
    hide SharesPlace;
  }

  lemma TailMembers(q: seq<nat>)
    requires q != []
    ensures forall b :: b in q[1..] ==> b in q
  {}

  /** Freeing into a full ring replaces the head and lengthens the queue beyond the pool. */
  lemma FullRingIsOverwritten(q: seq<nat>, n: nat, x: nat)
    requires |q| == n > 0
    ensures Appended(q, n, x) == [x] + q[1..] + [x]
  {
    forall j: nat | 0 < j < n
      ensures !SharesPlace(n, j, n)
    {
      DivModUnique(n - j, n, 0, n - j);
    }
    assert SharesPlace(n, 0, n) by { DivModUnique(n, n, 1, 0); }
    hide SharesPlace;
  }

  /**
   * Freeing a block keeps the queue a list of distinct blocks, appended to, if and only
   * if the block was not free already.
   */
  lemma DoubleFreeIsTheOnlyHarm(q: seq<nat>, n: nat, x: nat)
    requires NoDuplicates(q) && x < n && forall b :: b in q ==> b < n
    ensures NoDuplicates(Appended(q, n, x)) <==> x !in q
    ensures x !in q ==> Appended(q, n, x) == q + [x]
  {
    if x !in q {
      Pigeonhole(q, n, x);
      AppendedFits(q, n, x);
    } else {
      var j :| 0 <= j < |q| && q[j] == x;
      assert Appended(q, n, x)[j] == x;
    }
  }

  // ----- first in, first out -----

  datatype PoolOp = MallocOp | FreeOp(block: nat)

  /** The queue after one operation on a ring with `n` places. */
  function AfterOp(q: seq<nat>, n: nat, op: PoolOp): seq<nat>
    requires 0 < n
  {
    match op
    case MallocOp => if q == [] then q else q[1..]
    case FreeOp(b) => Appended(q, n, b)
  }

  /** The block an operation hands out, if any. */
  function HandedOut(q: seq<nat>, op: PoolOp): seq<nat> {
    if op.MallocOp? && q != [] then [q[0]] else []
  }

  /** The queue of a ring with `n` places after a sequence of operations, and the blocks handed out. */
  function Replay(q: seq<nat>, n: nat, ops: seq<PoolOp>): (r: (seq<nat>, seq<nat>))
    requires 0 < n
    decreases |ops|
  {
    if ops == [] then (q, [])
    else
      var (q', out) := Replay(AfterOp(q, n, ops[0]), n, ops[1..]);
      (q', HandedOut(q, ops[0]) + out)
  }

  function Given(ops: seq<PoolOp>): seq<nat> {
    if ops == [] then [] else (if ops[0].FreeOp? then [ops[0].block] else []) + Given(ops[1..])
  }

  /** First in, first out: blocks handed out, then those queued, are those queued at first, then those freed. */
  predicate Fifo(q: seq<nat>, n: nat, ops: seq<PoolOp>)
    requires 0 < n
  {
    var (q', out) := Replay(q, n, ops);
    out + q' == q + Given(ops)
  }

  /** Every block freed is one of the pool and is not free at that moment. */
  predicate FreesHeldBlocks(q: seq<nat>, n: nat, ops: seq<PoolOp>)
    requires 0 < n
    decreases |ops|
  {
    ops != [] ==>
      (ops[0].FreeOp? ==> ops[0].block < n && ops[0].block !in q)
      && FreesHeldBlocks(AfterOp(q, n, ops[0]), n, ops[1..])
  }

  /** The free replaces no entry by another block. */
  predicate OverwritesNothing(q: seq<nat>, n: nat, x: nat)
    requires 0 < n
  {
    forall j :: 0 <= j < |q| && SharesPlace(|q|, j, n) ==> q[j] == x
  }

  predicate NeverOverwrites(q: seq<nat>, n: nat, ops: seq<PoolOp>)
    requires 0 < n
    decreases |ops|
  {
    ops != [] ==>
      (ops[0].FreeOp? ==> OverwritesNothing(q, n, ops[0].block))
      && NeverOverwrites(AfterOp(q, n, ops[0]), n, ops[1..])
  }

  lemma AppendedExactly(q: seq<nat>, n: nat, x: nat)
    requires 0 < n
    ensures Appended(q, n, x) == q + [x] <==> OverwritesNothing(q, n, x)
  {
    hide SharesPlace;
    var r := Appended(q, n, x);
    if r == q + [x] {
      forall j | 0 <= j < |q| && SharesPlace(|q|, j, n)
        ensures q[j] == x
      {
        assert r[j] == (q + [x])[j];
      }
    }
  }

  lemma TakenLaw(q: seq<nat>, out: seq<nat>, q': seq<nat>, given: seq<nat>)
    requires q != []
    ensures ([q[0]] + out) + q' == q + given <==> out + q' == q[1..] + given
  {
    SameHead(q[0], out + q', q[1..] + given);
    assert ([q[0]] + out) + q' == [q[0]] + (out + q');
    assert q + given == [q[0]] + (q[1..] + given);
  }

  lemma GivenTail(ops: seq<PoolOp>)
    requires ops != []
    ensures Given(ops) == if ops[0].FreeOp? then [ops[0].block] + Given(ops[1..]) else Given(ops[1..])
  {}

  lemma FifoMalloc(q: seq<nat>, n: nat, ops: seq<PoolOp>)
    requires 0 < n && ops != [] && ops[0].MallocOp?
    ensures Fifo(q, n, ops) <==> Fifo(AfterOp(q, n, ops[0]), n, ops[1..])
  {
    hide Appended, Given;
    var (q', out) := Replay(AfterOp(q, n, ops[0]), n, ops[1..]);
    GivenTail(ops);
    assert Replay(q, n, ops) == (q', HandedOut(q, ops[0]) + out);
    if q != [] {
      TakenLaw(q, out, q', Given(ops[1..]));
    } else {
      assert [] + out == out;
    }
  }

  lemma FifoFree(q: seq<nat>, n: nat, ops: seq<PoolOp>)
    requires 0 < n && ops != [] && ops[0].FreeOp? && OverwritesNothing(q, n, ops[0].block)
    ensures Fifo(q, n, ops) <==> Fifo(AfterOp(q, n, ops[0]), n, ops[1..])
  {
    hide Appended, OverwritesNothing;
    AppendedExactly(q, n, ops[0].block);
    var (q', out) := Replay(AfterOp(q, n, ops[0]), n, ops[1..]);
    assert [] + out == out;
    assert (q + [ops[0].block]) + Given(ops[1..]) == q + ([ops[0].block] + Given(ops[1..]));
  }

  /** One operation that overwrites nothing: the law holds from here on as it does after it. */
  lemma FifoStep(q: seq<nat>, n: nat, ops: seq<PoolOp>)
    requires 0 < n && ops != [] && (ops[0].FreeOp? ==> OverwritesNothing(q, n, ops[0].block))
    ensures Fifo(q, n, ops) <==> Fifo(AfterOp(q, n, ops[0]), n, ops[1..])
  {
    hide Fifo, AfterOp, OverwritesNothing;
    if ops[0].MallocOp? { FifoMalloc(q, n, ops); } else { FifoFree(q, n, ops); }
  }

  lemma SameHead(x: nat, a: seq<nat>, b: seq<nat>)
    ensures [x] + a == [x] + b <==> a == b
  {
    if [x] + a == [x] + b { assert a == ([x] + a)[1..] && b == ([x] + b)[1..]; }
  }

  /** While no free replaces an entry, blocks are handed out in the order they were freed, after the initial ones. */
  lemma {:induction false} FifoWithoutOverwriting(q: seq<nat>, n: nat, ops: seq<PoolOp>)
    requires 0 < n && NeverOverwrites(q, n, ops)
    ensures Fifo(q, n, ops)
    decreases |ops|
  {
    if ops != [] {
      FifoWithoutOverwriting(AfterOp(q, n, ops[0]), n, ops[1..]);
      FifoStep(q, n, ops);
    }
  }

  /**
   * The ring is a queue exactly as long as no free replaces an entry: the law holds
   * after every prefix of the operations if and only if none of them does.
   */
  lemma {:induction false} FifoExactly(q: seq<nat>, n: nat, ops: seq<PoolOp>)
    requires 0 < n
    ensures (forall k :: 0 <= k <= |ops| ==> Fifo(q, n, ops[..k])) <==> NeverOverwrites(q, n, ops)
    decreases |ops|
  {
    hide Fifo, OverwritesNothing, AfterOp;
    if ops == [] {
      FifoWithoutOverwriting(q, n, []);
      assert ops[..0] == [];
    } else {
      var q1, rest := AfterOp(q, n, ops[0]), ops[1..];
      FifoOfOne(q, n, ops[0]);
      assert ops[..1] == [ops[0]];
      if ops[0].FreeOp? ==> OverwritesNothing(q, n, ops[0].block) {
        FifoExactly(q1, n, rest);
        FifoWithoutOverwriting(q, n, []);
        assert ops[..0] == [];
        forall k | 1 <= k <= |ops|
          ensures Fifo(q, n, ops[..k]) <==> Fifo(q1, n, rest[..k - 1])
        {
          assert ops[..k][1..] == rest[..k - 1] && ops[..k][0] == ops[0];
          FifoStep(q, n, ops[..k]);
        }
        assert forall k :: 0 <= k <= |rest| ==> (Fifo(q1, n, rest[..k]) <==> Fifo(q, n, ops[..k + 1]));
      }
    }
  }

  lemma FifoOfOne(q: seq<nat>, n: nat, op: PoolOp)
    requires 0 < n
    ensures Fifo(q, n, [op]) <==> (op.FreeOp? ==> OverwritesNothing(q, n, op.block))
  {
    hide OverwritesNothing, SharesPlace;
    var q1 := AfterOp(q, n, op);
    assert [op][1..] == [];
    assert Replay(q1, n, []) == (q1, []);
    assert Given([op]) == if op.FreeOp? then [op.block] else [];
    if op.FreeOp? { AppendedExactly(q, n, op.block); }
  }

  /**
   * For callers that free only blocks they hold: any sequence of operations hands blocks
   * out in the order they were freed, and the queue stays one of distinct blocks.
   */
  lemma {:induction false} FirstInFirstOut(q: seq<nat>, n: nat, ops: seq<PoolOp>)
    requires 0 < n && NoDuplicates(q) && (forall b :: b in q ==> b < n) && FreesHeldBlocks(q, n, ops)
    ensures Fifo(q, n, ops) && NoDuplicates(Replay(q, n, ops).0)
    decreases |ops|
  {
    hide Appended, Fifo, SharesPlace, NoDuplicates;
    if ops == [] {
      FifoWithoutOverwriting(q, n, ops);
    } else {
      HeldStep(q, n, ops[0]);
      FirstInFirstOut(AfterOp(q, n, ops[0]), n, ops[1..]);
      FifoStep(q, n, ops);
    }
  }

  lemma HeldStep(q: seq<nat>, n: nat, op: PoolOp)
    requires 0 < n && NoDuplicates(q) && (forall b :: b in q ==> b < n)
    requires op.FreeOp? ==> op.block < n && op.block !in q
    ensures NoDuplicates(AfterOp(q, n, op)) && forall b :: b in AfterOp(q, n, op) ==> b < n
    ensures op.FreeOp? ==> OverwritesNothing(q, n, op.block)
  {
    match op
    case MallocOp =>
      assert forall k :: 0 <= k < |q| - 1 ==> q[1..][k] == q[k + 1];
      if q != [] { TailMembers(q); }
    case FreeOp(b) =>
      AppendedMembers(q, n, b);
      DoubleFreeIsTheOnlyHarm(q, n, b);
      AppendedExactly(q, n, b);
  }

  /** A double free into the full ring of two blocks: block 0 is lost, block 1 queued three times. */
  lemma DoubleFreeLosesBlock()
    ensures Replay([0, 1], 2, [FreeOp(1)]) == ([1, 1, 1], [])
    ensures !Fifo([0, 1], 2, [FreeOp(1)])
  {
    var q, ops := [0, 1], [FreeOp(1)];
    var r := Appended(q, 2, 1);
    assert SharesPlace(2, 0, 2);
    assert r[0] == 1 && r[1] == 1 && r[2] == 1;
    assert AfterOp(q, 2, ops[0]) == r == [1, 1, 1];
    assert ops[1..] == [];
    assert Replay(r, 2, ops[1..]) == (r, []);
    var none: seq<nat> := [];
    assert HandedOut(q, ops[0]) + none == none;
    assert Replay(q, 2, ops) == (r, none);
    assert Given(ops) == [1];
    assert ([] + [1, 1, 1])[0] != ([0, 1] + [1])[0];
  }

  // ----- addresses -----

  /** The block number `memPoolFree` computes from an offset into the pool, or NULL if it rejects it. */
  function FreedBlock(offset: int, blockSize: int, numOfBlock: int): (k: int)
    requires 0 < blockSize
    ensures k == NULL || 0 <= k < numOfBlock
  {
    if TruncRem(ToInt(offset), blockSize) != 0 then NULL
    else
      var k := ToInt(TruncDiv(offset, blockSize));
      if k < 0 || numOfBlock <= k then NULL else k
  }

  /**
   * `memPoolFree` takes an address for block `k` if and only if its offset is that of
   * the block plus a multiple of 2^32 blocks; all others, negative and unaligned ones
   * included, are rejected or taken for another block.
   */
  lemma FreeAcceptsExactly(offset: int, blockSize: int, numOfBlock: int, k: nat)
    requires 0 < blockSize && k < numOfBlock && blockSize * numOfBlock < 0x8000_0000
    ensures FreedBlock(offset, blockSize, numOfBlock) == k <==>
            exists j: int :: offset == blockSize * (k + j * U32)
  {
    BlockOffsetsFit(blockSize, numOfBlock, k);
    if j: int :| offset == blockSize * (k + j * U32) {
      WildOffsetIsTaken(offset, blockSize, numOfBlock, k, j);
    }
    if FreedBlock(offset, blockSize, numOfBlock) == k {
      TakenOffset(offset, blockSize, numOfBlock, k);
    }
  }

  lemma BlockOffsetsFit(blockSize: int, numOfBlock: int, k: nat)
    requires 0 < blockSize && k < numOfBlock && blockSize * numOfBlock < 0x8000_0000
    ensures 0 <= blockSize * k <= 0x7FFF_FFFF - blockSize && k < 0x8000_0000
  {
    assert blockSize * numOfBlock == blockSize * k + blockSize * (numOfBlock - k);
    MultipleIsFar(numOfBlock - k, blockSize);
    MultipleIsFar(k, blockSize);
    ProductAtLeast(k, blockSize);
  }

  lemma MultipleDivides(b: int, q: int)
    requires 0 < b
    ensures TruncDiv(b * q, b) == q && TruncRem(b * q, b) == 0
  {
    MultipleIsFar(q, b);
    TruncDivUnique(b * q, b, q, 0);
  }

  lemma WildOffsetIsTaken(offset: int, blockSize: int, numOfBlock: int, k: nat, j: int)
    requires 0 < blockSize && k < numOfBlock && 0 <= blockSize * k < 0x8000_0000 && k < 0x8000_0000
    requires offset == blockSize * (k + j * U32)
    ensures FreedBlock(offset, blockSize, numOfBlock) == k
  {
    hide TruncDiv, TruncRem, ToInt;
    OffsetWraps(offset, blockSize, k, 0, j);
    MultipleDivides(blockSize, k);
    MultipleDivides(blockSize, k + j * U32);
    ToIntOfWrapped(k, j);
  }

  lemma ToIntOfWrapped(k: nat, j: int)
    requires k < 0x8000_0000
    ensures ToInt(k + j * U32) == k
  {
    ToIntWraps(k, j);
  }

  lemma TakenOffset(offset: int, blockSize: int, numOfBlock: int, k: nat)
    requires 0 < blockSize && k < numOfBlock && 0 <= blockSize * k <= 0x7FFF_FFFF - blockSize
    requires FreedBlock(offset, blockSize, numOfBlock) == k
    ensures exists j: int :: offset == blockSize * (k + j * U32)
  {
    var q, r := TruncDiv(offset, blockSize), TruncRem(offset, blockSize);
    ToIntLoses(q);
    var j: int :| q == k + j * U32;
    OffsetWraps(offset, blockSize, k, r, j);
    NoRemainder(blockSize * k + r, blockSize, k, r);
  }

  lemma OffsetWraps(offset: int, blockSize: int, k: nat, r: int, j: int)
    requires offset == blockSize * (k + j * U32) + r && -0x8000_0000 <= blockSize * k + r < 0x8000_0000
    ensures ToInt(offset) == blockSize * k + r
  {
    assert blockSize * (k + j * U32) == blockSize * k + (blockSize * j) * U32;
    ToIntWraps(blockSize * k + r, blockSize * j);
  }

  lemma NoRemainder(a: int, b: int, k: int, r: int)
    requires 0 < b && -b < r < b && a == b * k + r && TruncRem(a, b) == 0
    ensures r == 0
  {
    var d := TruncDiv(a, b) - k;
    assert r == d * b by { assert b * TruncDiv(a, b) == b * k + d * b; }
    MultipleIsFar(d, b);
  }

  lemma WithinOneTurn(blockSize: int, numOfBlock: int, k: nat, j: int)
    requires 0 < blockSize && k < numOfBlock
    requires blockSize * (numOfBlock - U32) <= blockSize * (k + j * U32) < blockSize * U32
    ensures j == 0
  {
    if 0 < j {
      ScaledApart(blockSize, U32, k + j * U32);
    } else if j < 0 {
      ScaledApart(blockSize, k + j * U32 + 1, numOfBlock - U32);
    }
  }

  /** For offsets below 2^32 blocks, whatever their sign, only the true address of a block is taken for it. */
  lemma FreeAcceptsExactlyBlocks(offset: int, blockSize: int, numOfBlock: int, k: nat)
    requires 0 < blockSize && k < numOfBlock && blockSize * numOfBlock < 0x8000_0000
    requires blockSize * (numOfBlock - U32) <= offset < blockSize * U32
    ensures FreedBlock(offset, blockSize, numOfBlock) == k <==> offset == blockSize * k
  {
    hide FreedBlock;
    FreeAcceptsExactly(offset, blockSize, numOfBlock, k);
    if j: int :| offset == blockSize * (k + j * U32) {
      WithinOneTurn(blockSize, numOfBlock, k, j);
    }
    assert k + 0 * U32 == k;
  }

  lemma ScaledApart(b: int, x: int, y: int)
    requires 0 < b && x <= y
    ensures b * x <= b * y
  {
    MultipleIsFar(y - x, b);
    assert (y - x) * b == b * y - b * x;
  }

  /** Beyond that range the casts wrap: the first address past it passes for block 0. */
  lemma WildAddressIsAccepted(blockSize: int, numOfBlock: int)
    requires 0 < blockSize && 0 < numOfBlock && blockSize * numOfBlock < 0x8000_0000
    ensures FreedBlock(blockSize * U32, blockSize, numOfBlock) == 0
  {
    FreeAcceptsExactly(blockSize * U32, blockSize, numOfBlock, 0);
    assert blockSize * U32 == blockSize * (0 + 1 * U32);
  }

  // ----- counting -----

  /** The block numbers below `n`. */
  function Range(n: nat): (r: set<nat>)
    ensures |r| == n
    ensures forall b: nat :: b in r <==> b < n
  {
    if n == 0 then {} else Range(n - 1) + {n - 1}
  }

  function Elements(s: seq<nat>): (r: set<nat>)
    ensures forall b :: b in r <==> b in s
    ensures NoDuplicates(s) ==> |r| == |s|
  {
    if s == [] then {}
    else
      assert s == s[..|s| - 1] + [s[|s| - 1]];
      Elements(s[..|s| - 1]) + {s[|s| - 1]}
  }

  /** Distinct block numbers that miss one cannot fill the pool. */
  lemma Pigeonhole(s: seq<nat>, n: nat, k: nat)
    requires NoDuplicates(s) && k < n && k !in s
    requires forall b :: b in s ==> b < n
    ensures |s| < n
  {
    SubsetSize(Elements(s), Range(n) - {k});
  }

  lemma {:induction false} SubsetSize(a: set<nat>, b: set<nat>)
    requires a <= b
    ensures |a| <= |b|
    decreases a
  {
    if a != {} {
      var x :| x in a;
      SubsetSize(a - {x}, b - {x});
    }
  }

  class Pool {
    const numOfBlock: int
    const blockSize: int
    /** Address of the memory area; block `k` starts at `base + blockSize * k`. */
    const base: int
    const freeList: array<nat>
    /** The memory area, block by block. */
    const mem: array<TmrObj>
    var numOfFree: nat
    var first: nat

    ghost predicate Valid()
      reads this, freeList
    {
      && 1 < numOfBlock && 1 < blockSize && 0 < base
      && blockSize * numOfBlock < 0x8000_0000
      && freeList.Length == mem.Length == numOfBlock
      && first < numOfBlock
      && (forall b :: b in Queue() ==> b < numOfBlock)
    }

    /** The free blocks in the order they will be handed out. */
    ghost function Queue(): (q: seq<nat>)
      requires freeList.Length > 0
      reads this, freeList
    {
      Ring(freeList[..], first, numOfFree)
    }

    /** `memPoolInit`: every block is free, in order; the memory is not initialised. */
    constructor (numOfBlock: int, blockSize: int, base: int)
      requires 1 < numOfBlock && 1 < blockSize && 0 < base && blockSize * numOfBlock < 0x8000_0000
      ensures Valid() && fresh(freeList) && fresh(mem)
      ensures this.numOfBlock == numOfBlock && this.blockSize == blockSize && this.base == base
      ensures Queue() == seq(numOfBlock, b => b)
    {
      this.numOfBlock := numOfBlock;
      this.blockSize := blockSize;
      this.base := base;
      freeList := new nat[numOfBlock];
      mem := new TmrObj[numOfBlock];
      first := 0;
      numOfFree := numOfBlock;
      new;
      for i := 0 to numOfBlock
        invariant forall k :: 0 <= k < i ==> freeList[k] == k
        modifies freeList
      {
        freeList[i] := i;
      }
      forall k: nat | k < numOfBlock
        ensures Index(0, k, numOfBlock) == k
      {
        IndexWraps(0, k, numOfBlock);
      }
      assert forall k :: 0 <= k < numOfBlock ==> Queue()[k] == k;
    }

    function AddressOf(k: int): int {
      base + blockSize * k
    }

    /** The pointer cast from an address back to the block there. */
    function BlockAt(p: int): int
      requires 0 < blockSize
    {
      if p == NULL_ADDRESS then NULL else (p - base) / blockSize
    }

    lemma CastRoundTrip(k: nat)
      requires 0 < blockSize && 0 < base
      ensures AddressOf(k) != NULL_ADDRESS && BlockAt(AddressOf(k)) == k
    {
      assert 0 <= blockSize * k;
      DivModUnique(blockSize * k, blockSize, k, 0);
    }

    /** The blocks lie within the memory area, and no two of them overlap. */
    lemma BlocksAreApart(j: nat, k: nat)
      requires 0 < blockSize && j < k < numOfBlock
      ensures base <= AddressOf(j) && AddressOf(j) + blockSize <= AddressOf(k)
      ensures AddressOf(k) + blockSize <= base + blockSize * numOfBlock
      ensures AddressOf(j) == base + blockSize * j && AddressOf(k) == base + blockSize * k
    {
      ScaledApart(blockSize, 0, j);
      ScaledApart(blockSize, j + 1, k);
      ScaledApart(blockSize, k + 1, numOfBlock);
    }

    lemma BlockIsInside(k: nat)
      requires 0 < blockSize && k < numOfBlock
      ensures AddressOf(k) == base + blockSize * k
      ensures base <= AddressOf(k) && AddressOf(k) + blockSize <= base + blockSize * numOfBlock
    {
      ScaledApart(blockSize, 0, k);
      ScaledApart(blockSize, k + 1, numOfBlock);
    }

    /** `memPoolMalloc`: the head of the queue, zeroed; no block, no effect. */
    method Malloc() returns (pos: int)
      requires Valid()
      modifies this`first, this`numOfFree, mem
      ensures Valid()
      ensures old(Queue()) == [] ==>
                pos == NULL_ADDRESS && Queue() == [] && mem[..] == old(mem[..])
      ensures old(Queue()) != [] ==>
                var b := old(Queue())[0];
                b < numOfBlock && pos == base + blockSize * b
                && base <= pos && pos + blockSize <= base + blockSize * numOfBlock
                && Queue() == old(Queue())[1..] && mem[..] == old(mem[..])[b := ZEROED]
    {
      hide AddressOf, BlockAt, SharesPlace;
      pos := NULL_ADDRESS;
      if numOfFree > 0 {
        ghost var q := Queue();
        TailMembers(q);
        RingTake(freeList[..], first, numOfFree);
        CastRoundTrip(q[0]);
        assert q[0] in q;
        BlockIsInside(q[0]);
        pos := AddressOf(freeList[first]);
        first := (first + 1) % numOfBlock;
        numOfFree := numOfFree - 1;
        assert Queue() == q[1..];
      }
      if pos != NULL_ADDRESS {
        mem[BlockAt(pos)] := ZEROED;
      }
    }

    /**
     * `memPoolFree`: the block that the address is taken for joins the queue, and the
     * memory at the address is zeroed; other addresses are ignored. Freeing a free
     * block is not noticed.
     */
    method Free(pMem: int)
      requires Valid()
      modifies this`numOfFree, freeList, mem
      ensures Valid()
      ensures var k := FreedBlock(pMem - base, blockSize, numOfBlock);
              if pMem == NULL_ADDRESS || k == NULL
              then Queue() == old(Queue()) && mem[..] == old(mem[..])
              else Queue() == Appended(old(Queue()), numOfBlock, k)
                   && mem[..] == if pMem == base + blockSize * k then old(mem[..])[k := ZEROED] else old(mem[..])
    {
      hide Ring, Appended, SharesPlace;
      if pMem == NULL_ADDRESS { return; }
      var index := TruncRem(ToInt(pMem - base), blockSize);
      if index == 0 {
        index := ToInt(TruncDiv(pMem - base, blockSize));
        if 0 <= index < numOfBlock {
          ghost var q, f := Queue(), freeList[..];
          RingPut(f, first, numOfFree, index);
          AppendedMembers(q, numOfBlock, index);
          freeList[(first + numOfFree) % numOfBlock] := index;
          assert freeList[..] == f[Index(first, numOfFree, numOfBlock) := index as nat];
          numOfFree := numOfFree + 1;
          assert Queue() == Appended(q, numOfBlock, index);
          if pMem == AddressOf(index) {
            mem[index] := ZEROED;
          }
        }
      }
    }
  }
}
