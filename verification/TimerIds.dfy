/** `getNextTimerId` of `ttimer/timer.c`: ids from a counter that wraps and skips 0. */
module TimerIds {
  import opened CInt

  /** The id after counter value `c`, for a counter with `m` values. */
  function NextId(c: nat, m: nat): (id: nat)
    requires m >= 2 && c < m
    ensures 1 <= id < m
  {
    if c + 1 == m then 1 else c + 1
  }

  /** The counter after `n` additions. */
  function Counter(c: nat, m: nat, n: nat): (r: nat)
    requires m >= 2 && c < m
    ensures r < m
  {
    if n == 0 then c else (Counter(c, m, n - 1) + 1) % m
  }

  /** The results of `n` atomic additions, by whichever threads, without the zeros that are retried. */
  function Handed(c: nat, m: nat, n: nat): seq<nat>
    requires m >= 2 && c < m
  {
    if n == 0 then [] else
    var id := Counter(c, m, n);
    Handed(c, m, n - 1) + if id == 0 then [] else [id]
  }

  /** The `k`-th id handed out, counted from 0, in closed form. */
  function IdAt(c: nat, m: nat, k: nat): (id: nat)
    requires m >= 2 && c < m
    ensures 1 <= id < m
  {
    if c == 0 then k % (m - 1) + 1 else (c + k) % (m - 1) + 1
  }

  lemma WrapStep(x: nat, d: nat)
    requires d > 0
    ensures (x + 1) % d == if x % d + 1 == d then 0 else x % d + 1
  {
    DivMod(x, d);
    if x % d + 1 == d {
      DivModUnique(x + 1, d, x / d + 1, 0);
    } else {
      DivModUnique(x + 1, d, x / d, x % d + 1);
    }
  }

  lemma FirstId(c: nat, m: nat)
    requires m >= 2 && c < m
    ensures IdAt(c, m, 0) == NextId(c, m)
  {
    if c + 1 == m { DivModUnique(m - 1, m - 1, 1, 0); } else { DivModUnique(c, m - 1, 0, c); }
  }

  /** One id leads to the next, whatever the number of the call. */
  lemma IdAfter(c: nat, m: nat, k: nat)
    requires m >= 2 && c < m
    ensures IdAt(c, m, k + 1) == NextId(IdAt(c, m, k), m)
  {
    WrapStep(if c == 0 then k else c + k, m - 1);
  }

  /** The last id handed out, or the counter at the start. */
  function LastId(c: nat, h: seq<nat>): nat {
    if h == [] then c else h[|h| - 1]
  }

  lemma CounterStep(c: nat, m: nat, n: nat)
    requires m >= 2 && c < m && n > 0
    ensures var p := Counter(c, m, n - 1);
            Counter(c, m, n) == if p + 1 == m then 0 else p + 1
  {
    var p := Counter(c, m, n - 1);
    if p + 1 == m { DivModUnique(p + 1, m, 1, 0); } else { DivModUnique(p + 1, m, 0, p + 1); }
  }

  /**
   * However the additions of concurrent callers interleave, the ids handed out are those
   * of the closed form, in order; the counter stands at the last one, or just past it at 0.
   */
  lemma {:induction false} HandedOut(c: nat, m: nat, n: nat)
    requires m >= 2 && c < m
    ensures forall k :: 0 <= k < |Handed(c, m, n)| ==> Handed(c, m, n)[k] == IdAt(c, m, k)
    ensures var last := LastId(c, Handed(c, m, n));
            Counter(c, m, n) == last || (Counter(c, m, n) == 0 && last == m - 1)
  {
    if n > 0 {
      HandedOut(c, m, n - 1);
      CounterStep(c, m, n);
      var h := Handed(c, m, n - 1);
      if h == [] { FirstId(c, m); } else { IdAfter(c, m, |h| - 1); }
      hide Counter, IdAt;
    }
  }

  /** Two ids are equal exactly if a multiple of `m - 1` ids lies between them. */
  lemma IdsRepeatAfterFullCycle(c: nat, m: nat, i: nat, j: nat)
    requires m >= 2 && c < m && i <= j
    ensures IdAt(c, m, i) == IdAt(c, m, j) <==> (j - i) % (m - 1) == 0
  {
    if c == 0 { SameRemainder(i, j, m - 1); } else { SameRemainder(c + i, c + j, m - 1); }
  }

  /** Any `m - 1` consecutive ids are nonzero and pairwise different. */
  lemma IdsAreDistinct(c: nat, m: nat, i: nat, j: nat)
    requires m >= 2 && c < m && i < j < i + (m - 1)
    ensures IdAt(c, m, i) != IdAt(c, m, j)
    ensures IdAt(c, m, i) != 0 && IdAt(c, m, j) != 0
  {
    IdsRepeatAfterFullCycle(c, m, i, j);
    DivModUnique(j - i, m - 1, 0, j - i);
  }

  class IdSource {
    var nextTimerId: nat
    const m: nat

    ghost predicate Valid()
      reads this
    {
      m >= 2 && nextTimerId < m
    }

    /** `m` is the number of values of `uintptr_t`. */
    constructor (m: nat)
      requires m >= 2
      ensures Valid() && this.m == m && nextTimerId == 0
    {
      this.m := m;
      nextTimerId := 0;
    }

    method GetNextTimerId() returns (id: nat)
      requires Valid()
      modifies this
      ensures Valid() && id == NextId(old(nextTimerId), m) && nextTimerId == id
    {
      nextTimerId := (nextTimerId + 1) % m;
      id := nextTimerId;
      WrapStep(old(nextTimerId), m);
      DivModUnique(old(nextTimerId), m, 0, old(nextTimerId));
      while id == 0
        invariant nextTimerId == id < m
        invariant id == (if old(nextTimerId) + 1 == m then 0 else old(nextTimerId) + 1) || id == NextId(old(nextTimerId), m)
        decreases if id == 0 then 1 else 0
      {
        nextTimerId := (nextTimerId + 1) % m;
        id := nextTimerId;
        DivModUnique(1, m, 0, 1);
      }
    }
  }
}
