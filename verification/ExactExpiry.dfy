/**
 * Is a timer on time? `tmrReset` turns a delay of `period` periods into a slot and a
 * 16-bit cycle count; this module says for exactly which delays that pair fires after
 * `period` periods.
 */
module ExactExpiry {
  import opened CInt
  import opened Deadlines

  /** The slot index computed at arming: `int + unsigned` is 32-bit unsigned arithmetic. */
  function ArmedSlot(t: nat, period: int, n: nat): (i: nat)
    requires 0 < n
    ensures i < n
  {
    ((period + t % U32) % U32) % n
  }

  /** The cycle count computed at arming, stored in a `short`. */
  function ArmedCycle(period: int, n: nat): (c: int)
    requires 0 < n
    ensures -0x8000 <= c < 0x8000
  {
    ToShort(TruncDiv(period, n))
  }

  /** The period in which a timer armed in period `t` with a delay of `period` periods fires. */
  function ExpiryOf(t: nat, period: int, n: nat): (f: nat)
    requires 0 < n <= U32
    ensures t <= f
  {
    FireTime(t, ArmedSlot(t, period, n), ArmedCycle(period, n), n)
  }

  /**
   * What a caller can check before arming, from the counter value `u`: the delay is not
   * negative, its cycle count fits a `short`, and either the counter does not wrap
   * before the deadline or the slot is visited as often as without the wrap.
   */
  predicate ArmsExactly(u: nat, period: int, n: nat)
    requires 0 < n <= U32 && u < U32
  {
    && 0 <= period
    && period / n <= 0x7FFF
    && (U32 <= u + period ==>
          var past := u + period - U32;
          VisitsBeforeWrap(u, past % n, n) + past / n == period / n)
  }

  lemma ShortOfQuotient(q: nat)
    ensures var c := ToShort(q);
            if q <= 0x7FFF then c == q else c <= q - 0x8000
  {
    if 0x7FFF < q {
      var k: int :| ToShort(q) == q - k * 0x1_0000;
    }
  }

  lemma FireTimeOfNegativeCycle(t: nat, i: nat, c: int, n: nat)
    requires i < n <= U32 && c <= 0
    ensures FireTime(t, i, c, n) == FireTime(t, i, 0, n)
  {}

  /** The number of visits of a slot before the wrap, against the plain quotient. */
  lemma VisitsBound(u: nat, i: nat, n: nat)
    requires i < n <= U32 && u < U32
    ensures (U32 - u) / n <= VisitsBeforeWrap(u, i, n)
  {
    var w := U32 - u;
    var d := (i - u) % n;
    if u + d < U32 {
      ModShift(w - n, 1, n);
      assert w - n <= w - 1 - d;
      DivMonotone(w - n, w - 1 - d, n);
    } else {
      DivModUnique(w, n, 0, w);
    }
  }

  /** From counter value `u`, the slot of `u + p` is visited first after `p % n` periods. */
  lemma SlotOffset(u: nat, p: nat, n: nat)
    requires 0 < n
    ensures ((u + p) % n - u) % n == p % n
  {
    var k := (u + p) / n;
    var q := p / n;
    assert (u + p) % n - u == p + (-k) * n by {
      assert u + p == k * n + (u + p) % n;
      assert (-k) * n == -(k * n);
    }
    ModShift(p, -k, n);
  }

  /** The effective cycle count: a negative one acts like 0, one too big for a `short` is far off. */
  function Effective(c: int): (e: nat)
    ensures 0 <= c ==> e == c
  {
    if c < 0 then 0 else c
  }

  lemma ExpiryInEffectiveCycles(t: nat, period: nat, n: nat)
    requires 0 < n <= U32
    ensures var e := Effective(ArmedCycle(period, n));
            ExpiryOf(t, period, n) == FireTime(t, ArmedSlot(t, period, n), e, n)
            && e <= period / n
            && (if period / n <= 0x7FFF then e == period / n else e <= period / n - 0x8000)
  {
    ShortOfQuotient(period / n);
    var c := ArmedCycle(period, n);
    if c < 0 { FireTimeOfNegativeCycle(t, ArmedSlot(t, period, n), c, n); }
  }

  lemma ExactBeforeWrap(t: nat, period: nat, n: nat)
    requires 0 < n <= U32
    requires t % U32 + period < U32
    ensures ExpiryOf(t, period, n) == t + period <==> period / n <= 0x7FFF
  {
    var u := t % U32;
    var e := Effective(ArmedCycle(period, n));
    ExpiryInEffectiveCycles(t, period, n);
    DivMod(u + period, n);
    SlotOffset(u, period, n);
    QuotientCompletes(period, n, e);
    DivMod(u + period, U32);
    FireTimeNoWrap(t, (u + period) % n, e, n);
  }

  /** The visit counts of a slot with and without the wrap differ by at most one. */
  lemma VisitsNearQuotient(u: nat, past: nat, n: nat)
    requires 0 < n <= U32 && u < U32
    ensures (U32 - u + past) / n <= VisitsBeforeWrap(u, past % n, n) + past / n + 1
  {
    var w := U32 - u;
    var i, j := past % n, past / n;
    VisitsBound(u, i, n);
    assert w + past == (w + i) + j * n by { assert past == j * n + i; }
    ModShift(w + i, j, n);
    DivMonotone(w + i, w + 1 * n, n);
    ModShift(w, 1, n);
  }

  /** After the wrap, round `j` of slot `i` fires exactly the entries with as many cycles as it had visits. */
  lemma FiresAfterAllVisits(t: nat, past: nat, i: nat, e: nat, j: nat, n: nat)
    requires i < n <= U32 && past == i + j * n < U32
    ensures FireTime(t, i, e, n) == t + (U32 - t % U32) + past <==>
            e == VisitsBeforeWrap(t % U32, i, n) + j
  {
    var k := VisitsBeforeWrap(t % U32, i, n);
    FiresAfterWrap(t, i, k + j, j, n, past);
    if e < k + j {
      FireTimeGrows(t, i, e, k + j, n);
    } else if k + j < e {
      FireTimeGrows(t, i, k + j, e, n);
    }
  }

  lemma ExactAcrossWrap(t: nat, period: nat, n: nat)
    requires 0 < n <= U32
    requires U32 <= t % U32 + period && period < U32
    ensures var past := t % U32 + period - U32;
            ExpiryOf(t, period, n) == t + period <==>
              (period / n <= 0x7FFF
               && VisitsBeforeWrap(t % U32, past % n, n) + past / n == period / n)
  {
    var u := t % U32;
    var past := u + period - U32;
    assert ArmedSlot(t, period, n) == past % n by {
      DivModUnique(period + u, U32, 1, past);
    }
    ExpiryInEffectiveCycles(t, period, n);
    VisitsNearQuotient(u, past, n);
    DivMod(past, n);
    FiresAfterAllVisits(t, past, past % n, Effective(ArmedCycle(period, n)), past / n, n);
  }

  /** More cycles, later firing. */
  lemma {:induction false} FireTimeGrows(t: nat, i: nat, c: nat, c': nat, n: nat)
    requires i < n <= U32 && c < c'
    ensures FireTime(t, i, c, n) < FireTime(t, i, c', n)
    decreases c
  {
    if c != 0 {
      FireTimeGrows(t + Wait(t, i, n) + 1, i, c - 1, c' - 1, n);
    }
  }

  /**
   * The exact condition for punctual expiry, for every arming period and every 32-bit
   * delay: short truncation, counter wrap and negative delays included.
   */
  lemma ExactIffArmsExactly(t: nat, period: int, n: nat)
    requires 0 < n <= U32
    requires -0x8000_0000 <= period < 0x8000_0000
    ensures ExpiryOf(t, period, n) == t + period <==> ArmsExactly(t % U32, period, n)
  {
    if 0 <= period {
      if t % U32 + period < U32 {
        ExactBeforeWrap(t, period, n);
      } else {
        ExactAcrossWrap(t, period, n);
      }
    }
  }

  /** Without a remainder at the wrap, a slot is visited (U32 - u + i) / n times before it. */
  lemma VisitsWithoutRemainder(u: nat, i: nat, n: nat)
    requires i < n <= U32 && u < U32 && U32 % n == 0
    ensures VisitsBeforeWrap(u, i, n) == (U32 - u + i) / n
  {
    var w := U32 - u;
    var m := U32 / n;
    assert U32 == m * n;
    assert i - u == (w + i) + (-m) * n by { assert (-m) * n == -(m * n); }
    ModShift(w + i, -m, n);
    var d := (i - u) % n;
    var x := (w + i) / n;
    assert w + i == x * n + d;
    if d < w {
      assert w - 1 - d == (x - 1) * n + (n - 1 - i) by { assert (x - 1) * n == x * n - n; }
      DivModUnique(w - 1 - d, n, x - 1, n - 1 - i);
    } else {
      MultipleIsFar(x, n);
    }
  }

  /** A wheel whose size divides 2^32 does not notice the wrap of the counter. */
  lemma PowerOfTwoWheelIgnoresWrap(u: nat, period: nat, n: nat)
    requires 0 < n <= U32 && u < U32 && period < U32
    requires U32 % n == 0
    ensures ArmsExactly(u, period, n) <==> period / n <= 0x7FFF
  {
    if U32 <= u + period {
      var past := u + period - U32;
      var i, j := past % n, past / n;
      VisitsWithoutRemainder(u, i, n);
      assert period == (U32 - u + i) + j * n by { assert past == j * n + i; }
      ModShift(U32 - u + i, j, n);
    }
  }

  /** A ten-slot wheel one period before the wrap: a delay of six periods fires at once. */
  lemma WrapCanFireEarly()
    ensures ExpiryOf(0xFFFF_FFFF, 6, 10) == 0xFFFF_FFFF
    ensures !ArmsExactly(0xFFFF_FFFF, 6, 10)
  {
    assert ArmedSlot(0xFFFF_FFFF, 6, 10) == 5;
    assert ArmedCycle(6, 10) == 0;
    assert SlotAt(0xFFFF_FFFF, 10) == 5;
    WaitZero(0xFFFF_FFFF, 5, 10);
    ExactIffArmsExactly(0xFFFF_FFFF, 6, 10);
  }

  /** 327680 periods on a ten-slot wheel need cycle 32768, which a `short` reads as negative. */
  lemma LongDelayFiresEarly()
    ensures ExpiryOf(0, 327680, 10) == 0
  {
    assert ArmedCycle(327680, 10) == -0x8000;
    assert ArmedSlot(0, 327680, 10) == 0;
    assert Wait(0, 0, 10) == 0;
  }
}
