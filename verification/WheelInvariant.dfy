/** Every operation on the wheel keeps `Inv`. */
module WheelInvariant {
  import opened Sequences
  import opened Deadlines
  import opened ExactExpiry
  import opened WheelModel

  lemma {:induction false} TotalUpdate(slots: seq<seq<Timer>>, i: nat, L: seq<Timer>)
    requires i < |slots|
    ensures Total(slots[i := L]) == Total(slots) - |slots[i]| + |L|
  {
    if i == 0 {
      assert slots[i := L][1..] == slots[1..];
    } else {
      assert slots[i := L][1..] == slots[1..][i - 1 := L];
      TotalUpdate(slots[1..], i - 1, L);
    }
  }

  lemma {:induction false} RemoveBlockNone(L: seq<Timer>, b: int)
    requires forall j :: 0 <= j < |L| ==> L[j].block != b
    ensures RemoveBlock(L, b) == L
  {
    if L != [] {
      RemoveBlockNone(L[1..], b);
    }
  }

  lemma {:induction false} RemoveBlockAt(L: seq<Timer>, b: int, j: nat)
    requires j < |L|
    requires forall k :: 0 <= k < |L| ==> (L[k].block == b <==> k == j)
    ensures RemoveBlock(L, b) == L[..j] + L[j + 1..]
  {
    if j == 0 {
      RemoveBlockNone(L[1..], b);
    } else {
      RemoveBlockAt(L[1..], b, j - 1);
      assert L[0].block != b;
      assert [L[0]] + L[1..][..j - 1] == L[..j];
    }
  }

  /** Unlinking touches one list, at one place. */
  lemma UnlinkAt(w: Wheel, i: nat, j: nat)
    requires At(w.slots, i, j) && Distinct(w.slots)
    ensures Unlink(w, w.slots[i][j].block).slots == w.slots[i := Cut(w.slots[i], j)]
  {
    var b := w.slots[i][j].block;
    var s := Unlink(w, b).slots;
    forall i' | 0 <= i' < |w.slots|
      ensures s[i'] == if i' == i then Cut(w.slots[i], j) else w.slots[i']
    {
      if i' == i {
        RemoveBlockAt(w.slots[i], b, j);
      } else {
        RemoveBlockNone(w.slots[i'], b);
      }
    }
  }

  /** Where position `j` of slot `a` was before `lo..hi` was cut out of slot `i`. */
  function Origin(i: nat, lo: nat, hi: nat, a: int, j: int): int {
    if a == i && lo <= j then j + hi - lo else j
  }

  lemma CutMoves(slots: seq<seq<Timer>>, i: nat, lo: nat, hi: nat, a: int, j: int)
    requires i < |slots| && lo <= hi <= |slots[i]|
    requires At(slots[i := slots[i][..lo] + slots[i][hi..]], a, j)
    ensures At(slots, a, Origin(i, lo, hi, a, j))
    ensures slots[i := slots[i][..lo] + slots[i][hi..]][a][j] == slots[a][Origin(i, lo, hi, a, j)]
  {}

  /** A sublist of one slot keeps the lists in order and the entries distinct. */
  lemma SlotShrinks(slots: seq<seq<Timer>>, i: nat, lo: nat, hi: nat)
    requires i < |slots| && lo <= hi <= |slots[i]|
    requires Distinct(slots) && Ordered(slots[i])
    ensures var L := slots[i][..lo] + slots[i][hi..];
            Distinct(slots[i := L]) && Ordered(L)
  {
    var L := slots[i][..lo] + slots[i][hi..];
    var s := slots[i := L];
    assert forall k :: 0 <= k < |L| ==> L[k] == if k < lo then slots[i][k] else slots[i][k + hi - lo];
    forall a, j, a', j' | At(s, a, j) && At(s, a', j')
      && (s[a][j].block == s[a'][j'].block || s[a][j].stamp == s[a'][j'].stamp)
      ensures a == a' && j == j'
    {
      CutMoves(slots, i, lo, hi, a, j);
      CutMoves(slots, i, lo, hi, a', j');
    }
  }

  /** Cutting `lo..hi` out of slot `i` unlinks exactly the blocks cut out. */
  lemma ShrinkingUnlinks(slots: seq<seq<Timer>>, i: nat, lo: nat, hi: nat, c: nat)
    requires i < |slots| && lo <= hi <= |slots[i]| && Distinct(slots)
    ensures var s := slots[i := slots[i][..lo] + slots[i][hi..]];
            IsLinked(s, c) <==> IsLinked(slots, c) && c !in Blocks(slots[i][lo..hi])
  {
    var L := slots[i];
    var s := slots[i := L[..lo] + L[hi..]];
    var B := Blocks(L[lo..hi]);
    if a, j :| At(s, a, j) && s[a][j].block == c {
      var j' := if a == i && lo <= j then j + hi - lo else j;
      assert At(slots, a, j') && slots[a][j'].block == c;
      forall m | 0 <= m < hi - lo
        ensures B[m] != c
      {
        assert At(slots, i, lo + m);
      }
    }
    forall m | lo <= m < hi
      ensures L[m].block in B
    {
      assert B[m - lo] == L[m].block;
    }
    if IsLinked(slots, c) && c !in B {
      var a, j :| At(slots, a, j) && slots[a][j].block == c;
      var j' := if a == i && hi <= j then j - (hi - lo) else j;
      assert At(s, a, j') && s[a][j'].block == c;
    }
  }

  lemma ShrinkingKeepsStamps(slots: seq<seq<Timer>>, i: nat, lo: nat, hi: nat, stamp: nat)
    requires i < |slots| && lo <= hi <= |slots[i]|
    requires forall a, j :: At(slots, a, j) ==> slots[a][j].stamp < stamp
    ensures var s := slots[i := slots[i][..lo] + slots[i][hi..]];
            forall a, j :: At(s, a, j) ==> s[a][j].stamp < stamp
  {
    var s := slots[i := slots[i][..lo] + slots[i][hi..]];
    forall a, j | At(s, a, j)
      ensures s[a][j].stamp < stamp
    {
      var j' := if a == i && lo <= j then j + hi - lo else j;
      assert At(slots, a, j') && s[a][j] == slots[a][j'];
    }
  }

  lemma UnlinkKeepsInv(w: Wheel, i: nat, j: nat)
    requires Inv(w, {}) && At(w.slots, i, j)
    ensures var b := w.slots[i][j].block;
            Inv(Unlink(w, b), {b})
  {
    var L := w.slots[i];
    var b := L[j].block;
    var r := Unlink(w, b);
    UnlinkAt(w, i, j);
    SlotShrinks(w.slots, i, j, j + 1);
    ShrinkingKeepsStamps(w.slots, i, j, j + 1, w.stamp);
    TotalUpdate(w.slots, i, Cut(L, j));
    assert IsLinked(w.slots, b);
    assert Blocks(L[j..j + 1]) == [b];
    forall c: nat
      ensures IsLinked(r.slots, c) <==> IsLinked(w.slots, c) && c != b
    {
      ShrinkingUnlinks(w.slots, i, j, j + 1, c);
    }
    assert Partition(r, {b});
  }

  lemma InsertedAt(L: seq<Timer>, x: Timer)
    ensures var r, p := InsertSorted(L, x), InsertPos(L, x.cycle);
            r[p] == x && forall k :: 0 <= k < |r| && k != p ==> r[k] == if k < p then L[k] else L[k - 1]
  {}

  lemma InsertKeepsOrder(L: seq<Timer>, x: Timer)
    requires Ordered(L)
    requires forall j :: 0 <= j < |L| ==> L[j].stamp < x.stamp
    ensures Ordered(InsertSorted(L, x))
  {
    var r, p := InsertSorted(L, x), InsertPos(L, x.cycle);
    InsertedAt(L, x);
    forall j, k | 0 <= j < k < |r|
      ensures Before(r[j], r[k])
    {
      if j == p {
        assert p < |L| && x.cycle <= L[p].cycle;
        if p < k - 1 { assert Before(L[p], L[k - 1]); }
      } else if k == p {
      } else {
        var j', k' := if j < p then j else j - 1, if k < p then k else k - 1;
        assert Before(L[j'], L[k']);
      }
    }
  }

  /** Where position `j` of slot `a` was before an insertion at `p` of slot `i`. */
  function PositionBefore(i: nat, p: nat, a: int, j: int): int {
    if a == i && p < j then j - 1 else j
  }

  lemma InsertMoves(slots: seq<seq<Timer>>, i: nat, x: Timer, a: int, j: int)
    requires i < |slots|
    requires At(slots[i := InsertSorted(slots[i], x)], a, j)
    requires !(a == i && j == InsertPos(slots[i], x.cycle))
    ensures var j' := PositionBefore(i, InsertPos(slots[i], x.cycle), a, j);
            At(slots, a, j') && slots[i := InsertSorted(slots[i], x)][a][j] == slots[a][j']
  {}

  /** A new block with a new stamp keeps the entries distinct. */
  lemma InsertKeepsDistinct(slots: seq<seq<Timer>>, i: nat, x: Timer)
    requires i < |slots| && Distinct(slots)
    requires forall a, j :: At(slots, a, j) ==> slots[a][j].block != x.block && slots[a][j].stamp != x.stamp
    ensures Distinct(slots[i := InsertSorted(slots[i], x)])
  {
    var p := InsertPos(slots[i], x.cycle);
    var s := slots[i := InsertSorted(slots[i], x)];
    InsertedAt(slots[i], x);
    forall a, j, a', j' | At(s, a, j) && At(s, a', j')
      && (s[a][j].block == s[a'][j'].block || s[a][j].stamp == s[a'][j'].stamp)
      ensures a == a' && j == j'
    {
      if !(a == i && j == p) { InsertMoves(slots, i, x, a, j); }
      if !(a' == i && j' == p) { InsertMoves(slots, i, x, a', j'); }
    }
  }

  lemma InsertKeepsStamps(slots: seq<seq<Timer>>, i: nat, x: Timer)
    requires i < |slots|
    requires forall a, j :: At(slots, a, j) ==> slots[a][j].stamp < x.stamp
    ensures var s := slots[i := InsertSorted(slots[i], x)];
            forall a, j :: At(s, a, j) ==> s[a][j].stamp <= x.stamp
  {
    var s := slots[i := InsertSorted(slots[i], x)];
    InsertedAt(slots[i], x);
    forall a, j | At(s, a, j)
      ensures s[a][j].stamp <= x.stamp
    {
      if !(a == i && j == InsertPos(slots[i], x.cycle)) { InsertMoves(slots, i, x, a, j); }
    }
  }

  lemma ArmLinks(w: Wheel, b: nat, period: int, fp: int, param: int, c: nat)
    requires 0 < w.n && |w.slots| == w.n
    ensures IsLinked(Place(w, b, period, fp, param).slots, c) <==> IsLinked(w.slots, c) || c == b
  {
    var i := ArmedSlot(w.now, period, w.n);
    var x := Timer(b, ArmedCycle(period, w.n), w.stamp, fp, param);
    var L := w.slots[i];
    var p := InsertPos(L, x.cycle);
    var s := w.slots[i := InsertSorted(L, x)];
    InsertedAt(L, x);
    if a, k :| At(s, a, k) && s[a][k].block == c {
      if !(a == i && k == p) {
        var k' := if a == i && p < k then k - 1 else k;
        assert At(w.slots, a, k') && w.slots[a][k'].block == c;
      }
    }
    assert At(s, i, p) && s[i][p].block == b;
    if a, k :| At(w.slots, a, k) && w.slots[a][k].block == c {
      var k' := if a == i && p <= k then k + 1 else k;
      assert At(s, a, k') && s[a][k'].block == c;
    }
  }

  lemma ArmKeepsInv(w: Wheel, held: set<nat>, b: nat, period: int, fp: int, param: int)
    requires Inv(w, held) && b in held
    ensures Inv(Place(w, b, period, fp, param), held - {b})
  {
    var i := ArmedSlot(w.now, period, w.n);
    var x := Timer(b, ArmedCycle(period, w.n), w.stamp, fp, param);
    var L := w.slots[i];
    var r := Place(w, b, period, fp, param);
    assert r.slots == w.slots[i := InsertSorted(L, x)];
    forall j | 0 <= j < |L| ensures L[j].stamp < x.stamp {
      assert At(w.slots, i, j);
    }
    InsertKeepsOrder(L, x);
    forall a, j | At(w.slots, a, j) ensures w.slots[a][j].block != b {
      assert IsLinked(w.slots, w.slots[a][j].block);
    }
    InsertKeepsDistinct(w.slots, i, x);
    InsertKeepsStamps(w.slots, i, x);
    TotalUpdate(w.slots, i, InsertSorted(L, x));
    forall c: nat
      ensures IsLinked(r.slots, c) <==> IsLinked(w.slots, c) || c == b
    {
      ArmLinks(w, b, period, fp, param, c);
    }
    assert Partition(r, held - {b});
  }

  lemma TakeKeepsInv(w: Wheel)
    requires Inv(w, {}) && w.free != []
    ensures Inv(Take(w), {w.free[0]})
  {
    assert w.free == [w.free[0]] + w.free[1..];
    var f := Take(w).free;
    assert forall j :: 0 <= j < |f| ==> f[j] == w.free[j + 1];
    assert forall b: nat :: b in w.free <==> b == w.free[0] || b in f;
    assert Partition(Take(w), {w.free[0]});
  }

  /** `tmrReset` keeps the invariant and hands out only existing blocks. */
  lemma ResetKeepsInv(w: Wheel, handle: int, period: int, fp: int, param: int)
    requires Inv(w, {})
    ensures var (r, h) := Reset(w, handle, period, fp, param);
            Inv(r, {}) && (h == NULL || (0 <= h < w.size && IsLinked(r.slots, h)))
  {
    if handle >= 0 && IsLinked(w.slots, handle) {
      var i, j :| At(w.slots, i, j) && w.slots[i][j].block == handle;
      UnlinkKeepsInv(w, i, j);
      ArmKeepsInv(Unlink(w, handle), {handle}, handle, period, fp, param);
      ArmLinks(Unlink(w, handle), handle, period, fp, param, handle);
      assert {handle as nat} - {handle as nat} == {};
    } else if w.free != [] {
      var b := w.free[0];
      TakeKeepsInv(w);
      ArmKeepsInv(Take(w), {b}, b, period, fp, param);
      ArmLinks(Take(w), b, period, fp, param, b);
      assert {b} - {b} == {};
    }
  }

  /** Expired blocks are linked, pairwise distinct, and so not free yet. */
  lemma PoppedBlocksJoinFree(w: Wheel, i: nat, k: nat)
    requires Inv(w, {}) && i < w.n && k <= |w.slots[i]|
    ensures var B := Blocks(w.slots[i][..k]);
            NoDuplicates(w.free + B) && forall c: nat :: c in B ==> IsLinked(w.slots, c)
  {
    var B := Blocks(w.slots[i][..k]);
    forall c: nat | c in B
      ensures IsLinked(w.slots, c)
    {
      var m :| 0 <= m < k && B[m] == c;
      assert At(w.slots, i, m) && w.slots[i][m].block == c;
    }
    forall m, m' | 0 <= m < m' < k
      ensures B[m] != B[m']
    {
      assert At(w.slots, i, m) && At(w.slots, i, m');
    }
    var F := w.free + B;
    forall m, m' | 0 <= m < m' < |F|
      ensures F[m] != F[m']
    {
      if m < |w.free| <= m' {
        assert F[m] in w.free && F[m'] == B[m' - |w.free|];
      } else if |w.free| <= m {
        assert F[m] == B[m - |w.free|] && F[m'] == B[m' - |w.free|];
      }
    }
  }

  lemma PoppedKeepsInv(w: Wheel, i: nat, k: nat)
    requires Inv(w, {}) && i < w.n && k <= |w.slots[i]|
    ensures Inv(Popped(w, i, k), {})
  {
    var r := Popped(w, i, k);
    var L := w.slots[i];
    var B := Blocks(L[..k]);
    assert L[..0] + L[k..] == L[k..] && L[0..k] == L[..k];
    SlotShrinks(w.slots, i, 0, k);
    ShrinkingKeepsStamps(w.slots, i, 0, k, w.stamp);
    TotalUpdate(w.slots, i, L[k..]);
    PoppedBlocksJoinFree(w, i, k);
    forall c: nat
      ensures IsLinked(r.slots, c) <==> IsLinked(w.slots, c) && c !in B
    {
      ShrinkingUnlinks(w.slots, i, 0, k, c);
    }
    assert Partition(r, {});
  }

  lemma AgedKeepsInv(w: Wheel, i: nat)
    requires Inv(w, {}) && i < w.n
    ensures Inv(w.(slots := w.slots[i := Age(w.slots[i])]), {})
  {
    var L := Age(w.slots[i]);
    var r := w.(slots := w.slots[i := L]);
    TotalUpdate(w.slots, i, L);
    assert forall a, j :: At(r.slots, a, j) <==> At(w.slots, a, j);
    assert forall a, j :: At(r.slots, a, j) ==>
        r.slots[a][j].block == w.slots[a][j].block && r.slots[a][j].stamp == w.slots[a][j].stamp;
    forall j, k | 0 <= j < k < |L| ensures Before(L[j], L[k]) {
      assert Before(w.slots[i][j], w.slots[i][k]);
    }
    forall c: nat
      ensures IsLinked(r.slots, c) <==> IsLinked(w.slots, c)
    {
      if a, j :| At(r.slots, a, j) && r.slots[a][j].block == c { assert w.slots[a][j].block == c; }
      if a, j :| At(w.slots, a, j) && w.slots[a][j].block == c { assert r.slots[a][j].block == c; }
    }
  }

  /** `tmrProcessList` keeps the invariant. */
  lemma ProcessKeepsInv(w: Wheel)
    requires Inv(w, {})
    ensures Inv(Process(w), {})
  {
    var i := SlotAt(w.now, w.n);
    var k := DueLen(w.slots[i]);
    PoppedKeepsInv(w, i, k);
    var p := Popped(w, i, k);
    AgedKeepsInv(p, i);
    var q := p.(slots := p.slots[i := Age(p.slots[i])]);
    assert Process(w) == q.(now := w.now + 1);
  }
}
