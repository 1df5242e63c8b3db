/**
 * When a wheel entry comes due.
 *
 * The wheel visits one slot per period: period t visits slot
 * (t mod 2^32) mod n, because the period counter is 32 bits wide. An entry
 * records only a slot and a remaining `cycle`. `FireTime` is the period in which
 * such an entry is reached with no cycle left; nothing in the C state stores it.
 */
module Deadlines {
  import opened CInt

  /** The slot period `t` visits. */
  function SlotAt(t: nat, n: nat): (i: nat)
    requires 0 < n
  {
    (t % U32) % n
  }

  /** How many periods after `t` slot `i` is visited next; 0 when `t` visits it. */
  function Wait(t: nat, i: nat, n: nat): (d: nat)
    requires i < n <= U32
  {
    var u := t % U32;
    var d := (i - u) % n;
    if u + d < U32 then d else U32 - u + i
  }

  /** The period in which an entry of slot `i` with `c` cycles left fires, seen from period `t`. */
  function FireTime(t: nat, i: nat, c: int, n: nat): (f: nat)
    requires i < n <= U32
    ensures t <= f
    decreases if c <= 0 then 0 else c
  {
    var v := t + Wait(t, i, n);
    if c <= 0 then v else FireTime(v + 1, i, c - 1, n)
  }

  lemma WaitLands(t: nat, i: nat, n: nat)
    requires i < n <= U32
    ensures SlotAt(t + Wait(t, i, n), n) == i
  {
    var u := t % U32;
    var w := Wait(t, i, n);
    var q := (i - u) / n;
    if w == (i - u) % n && u + w < U32 {
      DivModUnique(t + w, U32, t / U32, u + w);
      assert u + w == (-q) * n + i by {
        assert i - u == q * n + w;
        assert (-q) * n == -(q * n);
      }
      DivModUnique(u + w, n, -q, i);
    } else {
      DivModUnique(t + w, U32, t / U32 + 1, i);
      DivModUnique(i, n, 0, i);
    }
  }

  lemma WaitZero(t: nat, i: nat, n: nat)
    requires i < n <= U32
    ensures Wait(t, i, n) == 0 <==> SlotAt(t, n) == i
  {
    var u := t % U32;
    if Wait(t, i, n) == 0 {
      WaitLands(t, i, n);
    }
    if SlotAt(t, n) == i {
      assert i - u == (-(u / n)) * n + 0;
      DivModUnique(i - u, n, -(u / n), 0);
    }
  }

  lemma WaitStep(t: nat, i: nat, n: nat)
    requires i < n <= U32
    requires SlotAt(t, n) != i
    ensures Wait(t, i, n) == 1 + Wait(t + 1, i, n)
  {
    WaitZero(t, i, n);
    var u := t % U32;
    var d := (i - u) % n;
    var q := (i - u) / n;
    assert i - u == q * n + d;
    if u + 1 < U32 {
      DivModUnique(t + 1, U32, t / U32, u + 1);
      DivModUnique(i - (u + 1), n, q, d - 1);
    } else {
      DivModUnique(t + 1, U32, t / U32 + 1, 0);
      DivModUnique(i, n, 0, i);
    }
  }

  /** `t + Wait` is the first period at or after `t` that visits slot `i`. */
  lemma {:induction false} WaitIsFirstVisit(t: nat, i: nat, n: nat, s: nat)
    requires i < n <= U32
    requires t <= s < t + Wait(t, i, n)
    ensures SlotAt(s, n) != i
    decreases s - t
  {
    WaitZero(t, i, n);
    if s != t {
      WaitStep(t, i, n);
      WaitIsFirstVisit(t + 1, i, n, s);
    }
  }

  /**
   * What one period does to the fire time of an entry: a visited entry with cycles
   * left loses one and keeps its fire time; an entry of another slot keeps both; a
   * visited entry fires now exactly when it has none left.
   */
  lemma FireTimeStep(t: nat, i: nat, c: int, n: nat)
    requires i < n <= U32
    ensures FireTime(t, i, c, n) == t <==> SlotAt(t, n) == i && c <= 0
    ensures SlotAt(t, n) != i ==> FireTime(t, i, c, n) == FireTime(t + 1, i, c, n)
    ensures SlotAt(t, n) == i && 0 < c ==> FireTime(t, i, c, n) == FireTime(t + 1, i, c - 1, n)
  {
    WaitZero(t, i, n);
    if SlotAt(t, n) != i {
      WaitStep(t, i, n);
      var v := t + Wait(t, i, n);
      assert v == t + 1 + Wait(t + 1, i, n);
      assert FireTime(t, i, c, n) == if c <= 0 then v else FireTime(v + 1, i, c - 1, n);
    }
  }

  /** How many of the periods from `t` up to but without `f` visit slot `i`. */
  function Visits(t: nat, f: nat, i: nat, n: nat): (k: nat)
    requires 0 < n
    decreases f - t
  {
    if f <= t then 0 else (if SlotAt(t, n) == i then 1 else 0) + Visits(t + 1, f, i, n)
  }

  /**
   * What `FireTime` means without computing it: the period that visits the slot after
   * exactly as many visits as the entry has cycles (none, if the count is negative).
   */
  lemma {:induction false} FireTimeCountsVisits(t: nat, i: nat, c: int, n: nat, f: nat)
    requires i < n <= U32
    ensures FireTime(t, i, c, n) == f <==>
            t <= f && SlotAt(f, n) == i && Visits(t, f, i, n) == if c < 0 then 0 else c
    decreases f - t
  {
    FireTimeStep(t, i, c, n);
    if t < f {
      FireTimeCountsVisits(t + 1, i, if SlotAt(t, n) == i then c - 1 else c, n, f);
    }
  }

  /** Closed form while the period counter does not wrap. */
  lemma {:induction false} FireTimeNoWrap(t: nat, i: nat, c: nat, n: nat)
    requires i < n <= U32
    requires t % U32 + (i - t % U32) % n + c * n < U32
    ensures FireTime(t, i, c, n) == t + (i - t % U32) % n + c * n
    decreases c
  {
    var u := t % U32;
    var d := (i - u) % n;
    if c != 0 {
      assert c * n == n + (c - 1) * n;
      DivModUnique(t + d + 1, U32, t / U32, u + d + 1);
      OffsetAfterVisit(u, i, n);
      FireTimeNoWrap(t + d + 1, i, c - 1, n);
    }
  }

  /** How often slot `i` is visited from counter value `u` up to the wrap. */
  function VisitsBeforeWrap(u: nat, i: nat, n: nat): (k: nat)
    requires i < n && u < U32
  {
    var d := (i - u) % n;
    if u + d < U32 then 1 + (U32 - 1 - u - d) / n else 0
  }

  /** Fire time of the first visit after the counter wraps. */
  lemma FireTimeAfterWrap(t: nat, i: nat, c: nat, n: nat, past: nat)
    requires i < n <= U32
    requires U32 <= t % U32 + (i - t % U32) % n
    requires past == i + c * n < U32
    ensures FireTime(t, i, c, n) == t + (U32 - t % U32) + past
    ensures VisitsBeforeWrap(t % U32, i, n) == 0
  {
    var u := t % U32;
    var v := t + (U32 - u) + i;
    if c != 0 {
      assert c * n == n + (c - 1) * n;
      if i + 1 < U32 {
        DivModUnique(v + 1, U32, t / U32 + 1, i + 1);
        DivModUnique(i - (i + 1), n, -1, n - 1);
        FireTimeNoWrap(v + 1, i, c - 1, n);
      }
    }
  }

  /** The counter value after a visit of slot `i` is `n` short of the next visit, less one. */
  lemma OffsetAfterVisit(u: nat, i: nat, n: nat)
    requires i < n
    ensures (i - (u + (i - u) % n + 1)) % n == n - 1
  {
    var q := (i - u) / n;
    DivMod(i - u, n);
    assert (q - 1) * n == q * n - n;
    DivModUnique(i - (u + (i - u) % n + 1), n, q - 1, n - 1);
  }

  /** Stepping back by `n`, or running out. */
  lemma QuotientStep(a: nat, n: nat)
    requires 0 < n
    ensures n <= a ==> a / n == 1 + (a - n) / n
    ensures a < n ==> a / n == 0
  {
    if n <= a {
      ModShift(a - n, 1, n);
    } else {
      DivModUnique(a, n, 0, a);
    }
  }

  /** One visit before the wrap takes one cycle and moves on by `n` counter values. */
  lemma VisitsCountDown(u: nat, i: nat, n: nat)
    requires i < n <= U32 && u < U32
    requires u + (i - u) % n + 1 < U32
    ensures VisitsBeforeWrap(u, i, n) == 1 + VisitsBeforeWrap(u + (i - u) % n + 1, i, n)
  {
    OffsetAfterVisit(u, i, n);
    QuotientStep(U32 - 1 - u - (i - u) % n, n);
  }

  /** The period after the next visit, as a counter value. */
  lemma CounterAfterVisit(t: nat, d: nat)
    ensures t % U32 + d + 1 < U32 ==> (t + d + 1) % U32 == t % U32 + d + 1
    ensures t % U32 + d + 1 == U32 ==> (t + d + 1) % U32 == 0
  {}

  /** An entry with fewer cycles than remaining visits fires before the counter wraps. */
  lemma {:induction false} FiresBeforeWrap(t: nat, i: nat, c: nat, n: nat)
    requires i < n <= U32
    requires c < VisitsBeforeWrap(t % U32, i, n)
    ensures FireTime(t, i, c, n) < t + (U32 - t % U32)
    decreases c
  {
    if c != 0 {
      var u := t % U32;
      var d := (i - u) % n;
      DivMod(i - u, n);
      CounterAfterVisit(t, d);
      if u + d + 1 < U32 {
        VisitsCountDown(u, i, n);
        FiresBeforeWrap(t + d + 1, i, c - 1, n);
      } else {
        DivModUnique(0, n, 0, 0);
      }
    }
  }

  lemma FireTimeAfterVisit(t: nat, i: nat, c: nat, n: nat)
    requires i < n <= U32
    requires t % U32 + (i - t % U32) % n < U32
    ensures VisitsBeforeWrap(t % U32, i, n) >= 1
    ensures 0 < c ==> FireTime(t, i, c, n) == FireTime(t + (i - t % U32) % n + 1, i, c - 1, n)
  {
    DivMod(U32 - 1 - t % U32 - (i - t % U32) % n, n);
  }

  /** An entry with `rest` cycles more than remaining visits fires in round `rest` after the wrap. */
  lemma {:induction false} FiresAfterWrap(t: nat, i: nat, c: nat, rest: nat, n: nat, past: nat)
    requires i < n <= U32
    requires c == VisitsBeforeWrap(t % U32, i, n) + rest
    requires past == i + rest * n < U32
    ensures FireTime(t, i, c, n) == t + (U32 - t % U32) + past
    decreases c
  {
    hide VisitsBeforeWrap, FireTime, Wait;
    var u := t % U32;
    var d := (i - u) % n;
    DivMod(i - u, n);
    if u + d + 1 < U32 {
      FireTimeAfterVisit(t, i, c, n);
      CounterAfterVisit(t, d);
      VisitsCountDown(u, i, n);
      FiresAfterWrap(t + d + 1, i, c - 1, rest, n, past);
    } else {
      FiresAfterLastVisit(t, i, c, rest, n, past);
    }
  }

  /** At most one visit remains before the wrap, in the last period of all. */
  lemma FiresAfterLastVisit(t: nat, i: nat, c: nat, rest: nat, n: nat, past: nat)
    requires i < n <= U32
    requires U32 <= t % U32 + (i - t % U32) % n + 1
    requires c == VisitsBeforeWrap(t % U32, i, n) + rest
    requires past == i + rest * n < U32
    ensures FireTime(t, i, c, n) == t + (U32 - t % U32) + past
  {
    if U32 <= t % U32 + (i - t % U32) % n {
      FireTimeAfterWrap(t, i, c, n, past);
    } else {
      DivModUnique(0, n, 0, 0);
      FiresFromWrap(t, i, c, rest, n, past);
    }
  }

  /** The last counter value visits slot `i`; the next period has counter value 0. */
  lemma FiresFromWrap(t: nat, i: nat, c: nat, rest: nat, n: nat, past: nat)
    requires i < n <= U32
    requires t % U32 + (i - t % U32) % n + 1 == U32
    requires c == 1 + rest
    requires past == i + rest * n < U32
    ensures FireTime(t, i, c, n) == t + (U32 - t % U32) + past
    ensures VisitsBeforeWrap(t % U32, i, n) == 1
  {
    var d := (i - t % U32) % n;
    CounterAfterVisit(t, d);
    DivModUnique(0, n, 0, 0);
    DivModUnique(i, n, 0, i);
    FireTimeNoWrap(t + d + 1, i, rest, n);
  }
}
