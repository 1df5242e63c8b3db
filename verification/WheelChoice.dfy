/** Wheel selection and slot arithmetic of `addToWheel` in `ttimer/timer.c`, with its 32-bit unsigned operators. */
module WheelChoice {
  import opened CInt

  datatype WheelSpec = WheelSpec(resolution: nat, size: nat)

  /** The three wheels, finest first. */
  const WHEELS := [WheelSpec(5, 4096), WheelSpec(1000, 1024), WheelSpec(60000, 1024)]

  /** The table of `timer.c`, number by number. */
  lemma WheelTable()
    ensures |WHEELS| == 3
    ensures WHEELS[0].resolution == 5 && WHEELS[0].size == 4096
    ensures WHEELS[1].resolution == 1000 && WHEELS[1].size == 1024
    ensures WHEELS[2].resolution == 60000 && WHEELS[2].size == 1024
  {}

  /** The time a wheel covers in one turn. */
  function Span(w: nat): nat
    requires w < |WHEELS|
  {
    WHEELS[w].resolution * WHEELS[w].size
  }

  lemma Spans()
    ensures |WHEELS| == 3 && Span(0) == 20480 && Span(1) == 1024000 && Span(2) == 61440000
  {}

  /** The loop of `addToWheel`: the finest wheel whose span exceeds the delay, or the last one. */
  method SelectWheel(delay: nat) returns (wheel: nat)
    requires delay < U32
    ensures wheel < |WHEELS|
    ensures delay < WHEELS[wheel].resolution * WHEELS[wheel].size || wheel == |WHEELS| - 1
    ensures forall j :: 0 <= j < wheel ==> WHEELS[j].resolution * WHEELS[j].size <= delay
    ensures wheel == ChosenWheel(delay)
  {
    Spans();
    wheel := |WHEELS| - 1;
    var i := 0;
    while i < |WHEELS|
      invariant 0 <= i <= |WHEELS|
      invariant wheel == |WHEELS| - 1
      invariant forall j :: 0 <= j < i ==> Span(j) <= delay
    {
      if delay < (WHEELS[i].resolution * WHEELS[i].size) % U32 {
        wheel := i;
        break;
      }
      i := i + 1;
    }
  }

  /** The wheel that `SelectWheel` picks. */
  function ChosenWheel(delay: nat): (w: nat)
    ensures w < |WHEELS|
  {
    if delay < 20480 then 0 else if delay < 1024000 then 1 else 2
  }

  // ----- rounding up to a scan -----

  /** Scans from `nextScanAt` on to the one the timer is put down for, as computed in `uint32_t`. */
  function ScansAhead(expireAt: int, nextScanAt: int, resolution: nat): (idx: nat)
    requires 0 < resolution
  {
    if expireAt > nextScanAt then ((expireAt - nextScanAt) % U32 + resolution - 1) % U32 / resolution else 0
  }

  /** The instant that the slot arithmetic designates. */
  function ScanInstant(expireAt: int, nextScanAt: int, resolution: nat): int
    requires 0 < resolution
  {
    nextScanAt + ScansAhead(expireAt, nextScanAt, resolution) * resolution
  }

  /** Rounding up, in exact arithmetic. */
  lemma RoundUp(d: nat, r: nat)
    requires 0 < r
    ensures d <= (d + r - 1) / r * r < d + r
  {
    DivMod(d + r - 1, r);
  }

  lemma QuotientTimes(x: nat, r: nat)
    requires 0 < r
    ensures 0 <= x / r * r <= x
  {
    DivMod(x, r);
  }

  lemma ScansWithoutWrap(expireAt: int, nextScanAt: int, r: nat)
    requires 0 < r && 0 < expireAt - nextScanAt && expireAt - nextScanAt + r - 1 < U32
    ensures ScansAhead(expireAt, nextScanAt, r) == (expireAt - nextScanAt + r - 1) / r
  {
    var d := expireAt - nextScanAt;
    DivModUnique(d, U32, 0, d);
    DivModUnique(d + r - 1, U32, 0, d + r - 1);
  }

  lemma ScansWithWrap(expireAt: int, nextScanAt: int, r: nat)
    requires 0 < r < U32 && 0 < expireAt - nextScanAt && U32 <= expireAt - nextScanAt + r - 1
    ensures ScanInstant(expireAt, nextScanAt, r) < expireAt
  {
    var d := expireAt - nextScanAt;
    var x := (d % U32 + r - 1) % U32;
    QuotientTimes(x, r);
    if d < U32 {
      DivModUnique(d, U32, 0, d);
      DivModUnique(d + r - 1, U32, 1, d + r - 1 - U32);
    }
  }

  /**
   * The designated instant is at or after the expiry if and only if the offset,
   * rounded up, fits 32 bits; it is then the first such scan, and overshoots by less than
   * one resolution unless the timer had already expired at the next scan.
   */
  lemma RoundsUpToFirstScan(expireAt: int, nextScanAt: int, r: nat)
    requires 0 < r < U32
    ensures var fits := expireAt <= nextScanAt || expireAt - nextScanAt + r - 1 < U32;
            && (ScanInstant(expireAt, nextScanAt, r) >= expireAt <==> fits)
            && (fits ==> forall j: nat :: nextScanAt + j * r >= expireAt ==> ScansAhead(expireAt, nextScanAt, r) <= j)
            && (fits && expireAt > nextScanAt ==> ScanInstant(expireAt, nextScanAt, r) < expireAt + r)
  {
    if expireAt > nextScanAt {
      if expireAt - nextScanAt + r - 1 < U32 {
        var d := expireAt - nextScanAt;
        ScansWithoutWrap(expireAt, nextScanAt, r);
        RoundUp(d, r);
        forall j: nat | nextScanAt + j * r >= expireAt
          ensures (d + r - 1) / r <= j
        {
          NoEarlierScan(d, r, j);
        }
      } else {
        ScansWithWrap(expireAt, nextScanAt, r);
      }
    }
  }

  lemma NoEarlierScan(d: int, r: nat, j: nat)
    requires 0 < r && d <= j * r
    ensures (d + r - 1) / r <= j
  {
    DivMonotone(d + r - 1, j * r + r - 1, r);
    DivModUnique(j * r + r - 1, r, j, r - 1);
  }

  /**
   * "Not accurate, but not too inaccurate": the designated instant is not before the
   * expiry if and only if the offset to the next scan, rounded up, fits 32 bits. It is
   * then less than one resolution late, and on the coarser wheels by less than a 17th of
   * the delay, unless the timer expires by the next scan, which is designated in this case.
   */
  lemma InaccuracyIsBounded(delay: nat, now: int, nextScanAt: int)
    requires delay < U32
    ensures var w := ChosenWheel(delay);
            var ahead := now + delay - nextScanAt;
            var late := ScanInstant(now + delay, nextScanAt, WHEELS[w].resolution) - (now + delay);
            && (0 <= late <==> ahead + WHEELS[w].resolution - 1 < U32)
            && (ahead <= 0 ==> late == -ahead)
            && (0 < ahead && 0 <= late ==> late < WHEELS[w].resolution && (0 < w ==> late * 17 < delay))
  {
    RoundsUpToFirstScan(now + delay, nextScanAt, WHEELS[ChosenWheel(delay)].resolution);
  }

  // ----- slots -----

  /** `(wheel->index + idx + 1) % wheel->size`, in `uint32_t`. */
  function SlotOf(index: nat, idx: nat, size: nat): (slot: nat)
    requires 0 < size
    ensures slot < size
  {
    (index + idx + 1) % U32 % size
  }

  /** The 32-bit wrap of the sum does not move the slot, as the sizes are powers of two. */
  lemma SlotIgnoresWrap(index: nat, idx: nat, w: nat)
    requires w < |WHEELS|
    ensures SlotOf(index, idx, WHEELS[w].size) == (index + idx + 1) % WHEELS[w].size
  {
    var x, n := index + idx + 1, WHEELS[w].size;
    DivMod(x, U32);
    assert U32 == (U32 / n) * n;
    var k := x / U32 * (U32 / n);
    assert x == x % U32 + k * n;
    ModShift(x % U32, k, n);
  }

  /** Scan `k` from the next one on is the first at or after the expiry. */
  predicate FirstScan(expireAt: int, nextScanAt: int, r: nat, k: nat) {
    expireAt <= nextScanAt + k * r && (k == 0 || nextScanAt + (k - 1) * r < expireAt)
  }

  lemma FirstScanIsUnique(expireAt: int, nextScanAt: int, r: nat, j: nat, k: nat)
    requires 0 < r && FirstScan(expireAt, nextScanAt, r, j) && FirstScan(expireAt, nextScanAt, r, k)
    ensures j == k
  {
    if j < k { MonotoneScans(j, k - 1, r); }
    if k < j { MonotoneScans(k, j - 1, r); }
  }

  lemma MonotoneScans(j: nat, k: nat, r: nat)
    requires j <= k
    ensures j * r <= k * r
  {}

  /** The computed number of scans is that of the first scan at or after the expiry, if the rounded offset fits. */
  lemma ScansAheadIsFirst(expireAt: int, nextScanAt: int, r: nat)
    requires 0 < r < U32 && expireAt - nextScanAt + r - 1 < U32
    ensures FirstScan(expireAt, nextScanAt, r, ScansAhead(expireAt, nextScanAt, r))
  {
    var k := ScansAhead(expireAt, nextScanAt, r);
    RoundsUpToFirstScan(expireAt, nextScanAt, r);
    hide ScansAhead;
    if 0 < k { assert !(nextScanAt + (k - 1) * r >= expireAt); }
  }

  /** The slot of `addToWheel`: one past the wheel's position, plus the scans up to the first that is late enough. */
  lemma SlotOfFirstScan(index: nat, expireAt: int, nextScanAt: int, w: nat, k: nat)
    requires w < |WHEELS| && FirstScan(expireAt, nextScanAt, WHEELS[w].resolution, k)
    requires expireAt - nextScanAt + WHEELS[w].resolution - 1 < U32
    ensures SlotOf(index, ScansAhead(expireAt, nextScanAt, WHEELS[w].resolution), WHEELS[w].size)
            == (index + k + 1) % WHEELS[w].size
  {
    var r := WHEELS[w].resolution;
    hide ScansAhead, SlotOf, FirstScan;
    ScansAheadIsFirst(expireAt, nextScanAt, r);
    FirstScanIsUnique(expireAt, nextScanAt, r, ScansAhead(expireAt, nextScanAt, r), k);
    SlotIgnoresWrap(index, k, w);
  }

  /** Otherwise the 32-bit numbers decide, as they come. */
  lemma SlotOfWrappedOffset(index: nat, expireAt: int, nextScanAt: int, w: nat)
    requires w < |WHEELS| && U32 <= expireAt - nextScanAt + WHEELS[w].resolution - 1
    ensures SlotOf(index, ScansAhead(expireAt, nextScanAt, WHEELS[w].resolution), WHEELS[w].size)
            == (index + ((expireAt - nextScanAt) % 0x1_0000_0000 + WHEELS[w].resolution - 1) % 0x1_0000_0000
                         / WHEELS[w].resolution + 1) % WHEELS[w].size
  {
    SlotIgnoresWrap(index, ScansAhead(expireAt, nextScanAt, WHEELS[w].resolution), w);
    hide SlotOf;
  }

  /** Two timers linked at the same wheel position share a slot exactly if whole turns lie between them. */
  lemma SlotsMeetAfterWholeTurns(index: nat, i: nat, j: nat, w: nat)
    requires w < |WHEELS|
    ensures SlotOf(index, i, WHEELS[w].size) == SlotOf(index, j, WHEELS[w].size) <==>
            (j - i) % WHEELS[w].size == 0
  {
    SlotIgnoresWrap(index, i, w);
    SlotIgnoresWrap(index, j, w);
    SameRemainder(index + i + 1, index + j + 1, WHEELS[w].size);
  }

  /** Within one turn, equal slots mean equal scans. */
  lemma SlotNamesScan(index: nat, expire1: int, expire2: int, nextScanAt: int, w: nat)
    requires w < |WHEELS|
    requires var r, n := WHEELS[w].resolution, WHEELS[w].size;
             expire1 - nextScanAt <= r * (n - 1) && expire2 - nextScanAt <= r * (n - 1)
    ensures var r, n := WHEELS[w].resolution, WHEELS[w].size;
            var i, j := ScansAhead(expire1, nextScanAt, r), ScansAhead(expire2, nextScanAt, r);
            SlotOf(index, i, n) == SlotOf(index, j, n) <==> i == j
  {
    var r, n := WHEELS[w].resolution, WHEELS[w].size;
    var i, j := ScansAhead(expire1, nextScanAt, r), ScansAhead(expire2, nextScanAt, r);
    WithinOneTurn(expire1, nextScanAt, w);
    WithinOneTurn(expire2, nextScanAt, w);
    SlotsMeetAfterWholeTurns(index, i, j, w);
    hide ScansAhead, SlotOf;
    var gap: int := j as int - i as int;
    SmallMultiple(gap, n);
  }

  lemma SmallMultiple(d: int, n: int)
    requires 0 < n && -n < d < n
    ensures d % n == 0 <==> d == 0
  {
    if 0 <= d { DivModUnique(d, n, 0, d); } else { DivModUnique(d, n, -1, d + n); }
  }

  lemma WithinOneTurn(expireAt: int, nextScanAt: int, w: nat)
    requires w < |WHEELS|
    requires expireAt - nextScanAt <= WHEELS[w].resolution * (WHEELS[w].size - 1)
    ensures ScansAhead(expireAt, nextScanAt, WHEELS[w].resolution) < WHEELS[w].size
  {
    var d, r, n := expireAt - nextScanAt, WHEELS[w].resolution, WHEELS[w].size;
    assert n == 4096 || n == 1024;
    if d > 0 {
      assert d + r - 1 < U32;
      ScansWithoutWrap(expireAt, nextScanAt, r);
      NoEarlierScan(d, r, n - 1);
    }
  }
}
