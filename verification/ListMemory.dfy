/**
 * How the slot lists lie in memory: intrusive doubly linked lists threaded through the
 * blocks, and what the pointer updates of `tmrReset` and `tmrProcessList` do to them.
 */
module ListMemory {
  import opened Sequences
  import opened WheelModel
  import opened MemPool

  /** The C struct `tmr_list_t`. */
  datatype TmrList = TmrList(head: int, count: int)

  function PrevOf(L: seq<Timer>, j: nat): int
    requires j < |L|
  {
    if j == 0 then NULL else L[j - 1].block
  }

  function NextOf(L: seq<Timer>, j: nat): int
    requires j < |L|
  {
    if j + 1 == |L| then NULL else L[j + 1].block
  }

  function HeadOf(L: seq<Timer>): int {
    if L == [] then NULL else L[0].block
  }

  /** The block of the timer at position `j` of list `L` of slot `i`. */
  function Image(L: seq<Timer>, j: nat, i: int): TmrObj
    requires j < |L|
  {
    TmrObj(L[j].param, L[j].fp, L[j].block, L[j].cycle, PrevOf(L, j), NextOf(L, j), i)
  }

  /**
   * The memory is exactly the lists: every list head and count, and every field of every
   * linked block. `prev` and `next` are inverse, ends are NULL, `index` names the slot.
   */
  ghost predicate Mirrors(m: seq<TmrObj>, lists: seq<TmrList>, slots: seq<seq<Timer>>) {
    && |lists| == |slots|
    && (forall i :: 0 <= i < |slots| ==> lists[i] == TmrList(HeadOf(slots[i]), |slots[i]|))
    && (forall i, j :: At(slots, i, j) ==>
          slots[i][j].block < |m| && m[slots[i][j].block] == Image(slots[i], j, i))
  }

  /** The pointer updates that unlink block `p`. */
  function UnlinkMem(m: seq<TmrObj>, p: int): (r: seq<TmrObj>)
    requires 0 <= p < |m|
    requires m[p].prev == NULL || 0 <= m[p].prev < |m|
    requires m[p].next == NULL || 0 <= m[p].next < |m|
    ensures |r| == |m|
  {
    var o := m[p];
    var m1 := if o.prev != NULL then m[o.prev := m[o.prev].(next := o.next)] else m;
    var m2 := if o.next != NULL then m1[o.next := m1[o.next].(prev := o.prev)] else m1;
    m2[p := m2[p].(timerId := NULL)]
  }

  function UnlinkLists(lists: seq<TmrList>, o: TmrObj): (r: seq<TmrList>)
    requires 0 <= o.index < |lists|
    ensures |r| == |lists|
  {
    var l := lists[o.index];
    lists[o.index := TmrList(if o.prev == NULL then o.next else l.head, l.count - 1)]
  }

  /** What the updates write into block `c`. */
  lemma UnlinkMemAt(m: seq<TmrObj>, p: nat, c: nat)
    requires p < |m| && c < |m|
    requires m[p].prev == NULL || 0 <= m[p].prev < |m|
    requires m[p].next == NULL || 0 <= m[p].next < |m|
    requires m[p].prev != p && m[p].next != p && (m[p].prev == m[p].next ==> m[p].prev == NULL)
    ensures UnlinkMem(m, p)[c] ==
            if c == p then m[c].(timerId := NULL)
            else if c == m[p].next then m[c].(prev := m[p].prev)
            else if c == m[p].prev then m[c].(next := m[p].next)
            else m[c]
  {}

  /** The pointers of the others after position `j` left the list. */
  lemma CutImage(L: seq<Timer>, j: nat, k: nat, i: int)
    requires j < |L| && k < |L| && k != j
    ensures var o := Image(L, k, i);
            Image(Cut(L, j), if k < j then k else k - 1, i) ==
              if k + 1 == j then o.(next := NextOf(L, j))
              else if k == j + 1 then o.(prev := PrevOf(L, j))
              else o
  {}

  lemma UnlinkedFromList(m: seq<TmrObj>, lists: seq<TmrList>, slots: seq<seq<Timer>>, i: nat, j: nat, k: nat)
    requires Mirrors(m, lists, slots) && Distinct(slots) && At(slots, i, j) && At(slots, i, k) && k != j
    requires Neighbours(m, slots, i, j)
    ensures slots[i][k].block < |m|
    ensures UnlinkMem(m, slots[i][j].block)[slots[i][k].block]
         == Image(Cut(slots[i], j), if k < j then k else k - 1, i)
  {
    hide UnlinkMem;
    NeighboursDiffer(m, slots, i, j);
    UnlinkMemAt(m, slots[i][j].block, slots[i][k].block);
    CutImage(slots[i], j, k, i);
    if 0 < j { assert At(slots, i, j - 1); }
    if j + 1 < |slots[i]| { assert At(slots, i, j + 1); }
  }

  lemma NeighboursDiffer(m: seq<TmrObj>, slots: seq<seq<Timer>>, i: nat, j: nat)
    requires Distinct(slots) && At(slots, i, j) && Neighbours(m, slots, i, j)
    ensures var p := slots[i][j].block;
            m[p].prev != p && m[p].next != p && (m[p].prev == m[p].next ==> m[p].prev == NULL)
  {
    if 0 < j { assert At(slots, i, j - 1); }
    if j + 1 < |slots[i]| { assert At(slots, i, j + 1); }
  }

  lemma UnlinkedElsewhere(m: seq<TmrObj>, lists: seq<TmrList>, slots: seq<seq<Timer>>, i: nat, j: nat, a: int, k: int)
    requires Mirrors(m, lists, slots) && Distinct(slots) && At(slots, i, j) && At(slots, a, k) && a != i
    requires Neighbours(m, slots, i, j)
    ensures slots[a][k].block < |m|
    ensures UnlinkMem(m, slots[i][j].block)[slots[a][k].block] == m[slots[a][k].block]
  {
    hide UnlinkMem;
    NeighboursDiffer(m, slots, i, j);
    UnlinkMemAt(m, slots[i][j].block, slots[a][k].block);
    if 0 < j { assert At(slots, i, j - 1); }
    if j + 1 < |slots[i]| { assert At(slots, i, j + 1); }
  }

  /** Unlinking from any place of a list leaves exactly the lists without that block. */
  lemma UnlinkMirrors(m: seq<TmrObj>, lists: seq<TmrList>, slots: seq<seq<Timer>>, i: nat, j: nat)
    requires Mirrors(m, lists, slots) && Distinct(slots) && At(slots, i, j)
    ensures var p := slots[i][j].block;
            Neighbours(m, slots, i, j)
            && Mirrors(UnlinkMem(m, p), UnlinkLists(lists, m[p]), slots[i := Cut(slots[i], j)])
  {
    var L := slots[i];
    var p := L[j].block;
    var R := Cut(L, j);
    NeighboursExist(m, lists, slots, i, j);
    hide UnlinkMem;
    forall k | 0 <= k < |R|
      ensures R[k].block < |m| && UnlinkMem(m, p)[R[k].block] == Image(R, k, i)
    {
      UnlinkedFromList(m, lists, slots, i, j, if k < j then k else k + 1);
    }
    forall a, k | At(slots, a, k) && a != i
      ensures UnlinkMem(m, p)[slots[a][k].block] == m[slots[a][k].block]
    {
      UnlinkedElsewhere(m, lists, slots, i, j, a, k);
    }
    OtherListsKept(m, UnlinkMem(m, p), lists, UnlinkLists(lists, m[p]), slots, i, R);
  }

  /** The pointers of a linked block lead to blocks of its list, or nowhere. */
  ghost predicate Neighbours(m: seq<TmrObj>, slots: seq<seq<Timer>>, i: nat, j: nat)
    requires At(slots, i, j)
  {
    var p := slots[i][j].block;
    && p < |m|
    && m[p] == Image(slots[i], j, i)
    && (0 < j ==> slots[i][j - 1].block < |m|)
    && (j + 1 < |slots[i]| ==> slots[i][j + 1].block < |m|)
  }

  lemma NeighboursExist(m: seq<TmrObj>, lists: seq<TmrList>, slots: seq<seq<Timer>>, i: nat, j: nat)
    requires Mirrors(m, lists, slots) && At(slots, i, j)
    ensures Neighbours(m, slots, i, j)
  {
    if 0 < j { assert At(slots, i, j - 1); }
    if j + 1 < |slots[i]| { assert At(slots, i, j + 1); }
  }

  /** The pointer updates that link the object `o` as block `p` between `o.prev` and `o.next`. */
  function LinkMem(m: seq<TmrObj>, p: int, o: TmrObj): (r: seq<TmrObj>)
    requires 0 <= p < |m|
    requires o.prev == NULL || 0 <= o.prev < |m|
    requires o.next == NULL || 0 <= o.next < |m|
    ensures |r| == |m|
  {
    var m1 := m[p := o];
    var m2 := if o.next != NULL then m1[o.next := m1[o.next].(prev := p)] else m1;
    if o.prev != NULL then m2[o.prev := m2[o.prev].(next := p)] else m2
  }

  function LinkLists(lists: seq<TmrList>, p: int, o: TmrObj): (r: seq<TmrList>)
    requires 0 <= o.index < |lists|
    ensures |r| == |lists|
  {
    var l := lists[o.index];
    lists[o.index := TmrList(if o.prev == NULL then p else l.head, l.count + 1)]
  }

  /** The pointers of the others: only the two neighbours of the new timer change. */
  lemma WithImage(L: seq<Timer>, p: nat, x: Timer, k: nat, i: int)
    requires p <= |L| && k < |L|
    ensures var o := Image(L, k, i);
            Image(With(L, p, x), if k < p then k else k + 1, i) ==
              if k + 1 == p then o.(next := x.block)
              else if k == p then o.(prev := x.block)
              else o
  {}

  ghost predicate Insertable(m: seq<TmrObj>, L: seq<Timer>, p: nat, x: Timer)
    requires p <= |L|
  {
    x.block < |m| && (0 < p ==> L[p - 1].block < |m|) && (p < |L| ==> L[p].block < |m|)
  }

  /** What the updates write into block `c`. */
  lemma LinkMemAt(m: seq<TmrObj>, p: nat, o: TmrObj, c: nat)
    requires p < |m| && c < |m|
    requires o.prev == NULL || 0 <= o.prev < |m|
    requires o.next == NULL || 0 <= o.next < |m|
    requires o.prev != p && o.next != p && (o.prev == o.next ==> o.prev == NULL)
    ensures LinkMem(m, p, o)[c] ==
            if c == p then o
            else if c == o.next then m[c].(prev := p)
            else if c == o.prev then m[c].(next := p)
            else m[c]
  {}

  lemma InsertionNeighbours(m: seq<TmrObj>, lists: seq<TmrList>, slots: seq<seq<Timer>>, i: nat, p: nat, x: Timer)
    requires Mirrors(m, lists, slots) && Distinct(slots) && i < |slots| && p <= |slots[i]|
    requires x.block < |m| && !IsLinked(slots, x.block)
    ensures Insertable(m, slots[i], p, x)
    ensures var o := Image(With(slots[i], p, x), p, i);
            o.prev != x.block && o.next != x.block && (o.prev == o.next ==> o.prev == NULL)
  {
    var L := slots[i];
    if 0 < p { assert At(slots, i, p - 1); }
    if p < |L| { assert At(slots, i, p); }
  }

  /** A timer of the receiving list after the updates. */
  lemma LinkedInList(m: seq<TmrObj>, lists: seq<TmrList>, slots: seq<seq<Timer>>, i: nat, p: nat, x: Timer, k: nat)
    requires Mirrors(m, lists, slots) && Distinct(slots) && At(slots, i, k) && p <= |slots[i]|
    requires x.block < |m| && !IsLinked(slots, x.block)
    requires Insertable(m, slots[i], p, x)
    ensures var R := With(slots[i], p, x);
            slots[i][k].block < |m|
            && LinkMem(m, x.block, Image(R, p, i))[slots[i][k].block] == Image(R, if k < p then k else k + 1, i)
  {
    hide LinkMem;
    InsertionNeighbours(m, lists, slots, i, p, x);
    WithImage(slots[i], p, x, k, i);
    LinkMemAt(m, x.block, Image(With(slots[i], p, x), p, i), slots[i][k].block);
    if 0 < p { assert At(slots, i, p - 1); }
    if p < |slots[i]| { assert At(slots, i, p); }
  }

  /** A timer of another list is not touched. */
  lemma LinkedElsewhere(m: seq<TmrObj>, lists: seq<TmrList>, slots: seq<seq<Timer>>, i: nat, p: nat, x: Timer,
                        a: int, k: int)
    requires Mirrors(m, lists, slots) && Distinct(slots) && i < |slots| && p <= |slots[i]|
    requires At(slots, a, k) && a != i
    requires x.block < |m| && !IsLinked(slots, x.block)
    requires Insertable(m, slots[i], p, x)
    ensures slots[a][k].block < |m|
    ensures LinkMem(m, x.block, Image(With(slots[i], p, x), p, i))[slots[a][k].block] == m[slots[a][k].block]
  {
    hide LinkMem;
    InsertionNeighbours(m, lists, slots, i, p, x);
    LinkMemAt(m, x.block, Image(With(slots[i], p, x), p, i), slots[a][k].block);
    if 0 < p { assert At(slots, i, p - 1); }
    if p < |slots[i]| { assert At(slots, i, p); }
  }

  /** Every timer of the receiving list, the new one included, after the updates. */
  lemma LinkedListMirrors(m: seq<TmrObj>, lists: seq<TmrList>, slots: seq<seq<Timer>>, i: nat, p: nat, x: Timer, k: nat)
    requires Mirrors(m, lists, slots) && Distinct(slots) && i < |slots| && p <= |slots[i]| && k <= |slots[i]|
    requires x.block < |m| && !IsLinked(slots, x.block)
    requires Insertable(m, slots[i], p, x)
    ensures var R := With(slots[i], p, x);
            R[k].block < |m| && LinkMem(m, x.block, Image(R, p, i))[R[k].block] == Image(R, k, i)
  {
    hide LinkMem, Mirrors, IsLinked, Distinct;
    if k < p {
      LinkedInList(m, lists, slots, i, p, x, k);
    } else if p < k {
      LinkedInList(m, lists, slots, i, p, x, k - 1);
    } else {
      InsertionNeighbours(m, lists, slots, i, p, x);
      LinkMemAt(m, x.block, Image(With(slots[i], p, x), p, i), x.block);
    }
  }

  lemma NewListHead(m: seq<TmrObj>, lists: seq<TmrList>, slots: seq<seq<Timer>>, i: nat, p: nat, x: Timer)
    requires Mirrors(m, lists, slots) && i < |slots| && p <= |slots[i]|
    ensures var R := With(slots[i], p, x);
            i < |lists| && LinkLists(lists, x.block, Image(R, p, i)) == lists[i := TmrList(HeadOf(R), |R|)]
  {}

  /** Linking an unlinked block at place `p` of list `i` yields exactly the lists with the new timer. */
  lemma LinkMirrors(m: seq<TmrObj>, lists: seq<TmrList>, slots: seq<seq<Timer>>, i: nat, p: nat, x: Timer)
    requires Mirrors(m, lists, slots) && Distinct(slots) && i < |slots| && p <= |slots[i]|
    requires x.block < |m| && !IsLinked(slots, x.block)
    ensures var R := With(slots[i], p, x);
            Insertable(m, slots[i], p, x) && i < |lists|
            && Mirrors(LinkMem(m, x.block, Image(R, p, i)), LinkLists(lists, x.block, Image(R, p, i)), slots[i := R])
  {
    hide LinkMem, LinkLists, Mirrors, IsLinked, Distinct, HeadOf;
    var R := With(slots[i], p, x);
    InsertionNeighbours(m, lists, slots, i, p, x);
    NewListHead(m, lists, slots, i, p, x);
    var o := Image(R, p, i);
    var m' := LinkMem(m, x.block, o);
    LinkMemSize(m, x.block, o);
    forall k | 0 <= k < |R|
      ensures R[k].block < |m| && m'[R[k].block] == Image(R, k, i)
    {
      LinkedListMirrors(m, lists, slots, i, p, x, k);
    }
    forall a, k | At(slots, a, k) && a != i
      ensures slots[a][k].block < |m| && m'[slots[a][k].block] == m[slots[a][k].block]
    {
      LinkedElsewhere(m, lists, slots, i, p, x, a, k);
    }
    OtherListsKept(m, m', lists, LinkLists(lists, x.block, o), slots, i, R);
  }

  lemma LinkMemSize(m: seq<TmrObj>, p: nat, o: TmrObj)
    requires p < |m|
    requires o.prev == NULL || 0 <= o.prev < |m|
    requires o.next == NULL || 0 <= o.next < |m|
    ensures |LinkMem(m, p, o)| == |m|
  {}

  /** One list changed in place, the others untouched. */
  lemma OtherListsKept(m: seq<TmrObj>, m': seq<TmrObj>, lists: seq<TmrList>, lists': seq<TmrList>,
                       slots: seq<seq<Timer>>, i: nat, R: seq<Timer>)
    requires Mirrors(m, lists, slots) && i < |slots|
    requires |m'| == |m| && lists' == lists[i := TmrList(HeadOf(R), |R|)]
    requires forall k :: 0 <= k < |R| ==> R[k].block < |m| && m'[R[k].block] == Image(R, k, i)
    requires forall a, k :: At(slots, a, k) && a != i ==> m'[slots[a][k].block] == m[slots[a][k].block]
    ensures Mirrors(m', lists', slots[i := R])
  {
    var s := slots[i := R];
    forall a, k | At(s, a, k)
      ensures s[a][k].block < |m'| && m'[s[a][k].block] == Image(s[a], k, a)
    {
      if a != i { assert At(slots, a, k); }
    }
  }

  /** The updates of `tmrProcessList` that take the head of list `i` off. */
  function PopMem(m: seq<TmrObj>, p: int): (r: seq<TmrObj>)
    requires 0 <= p < |m|
    requires m[p].next == NULL || 0 <= m[p].next < |m|
    ensures |r| == |m|
  {
    var n := m[p].next;
    var m1 := if n != NULL then m[n := m[n].(prev := NULL)] else m;
    m1[p := m1[p].(timerId := NULL)]
  }

  /** Taking the head off is unlinking at position 0. */
  lemma PopMirrors(m: seq<TmrObj>, lists: seq<TmrList>, slots: seq<seq<Timer>>, i: nat)
    requires Mirrors(m, lists, slots) && Distinct(slots) && At(slots, i, 0)
    ensures var p := slots[i][0].block;
            Neighbours(m, slots, i, 0)
            && Mirrors(PopMem(m, p), lists[i := TmrList(m[p].next, lists[i].count - 1)], slots[i := slots[i][1..]])
  {
    UnlinkMirrors(m, lists, slots, i, 0);
    var p := slots[i][0].block;
    assert Cut(slots[i], 0) == slots[i][1..];
    assert PopMem(m, p) == UnlinkMem(m, p);
    assert UnlinkLists(lists, m[p]) == lists[i := TmrList(m[p].next, lists[i].count - 1)];
  }

  /** A write to an unlinked block is invisible to the lists. */
  lemma UnlinkedWriteKeepsMirror(m: seq<TmrObj>, lists: seq<TmrList>, slots: seq<seq<Timer>>, b: nat, o: TmrObj)
    requires Mirrors(m, lists, slots) && b < |m| && !IsLinked(slots, b)
    ensures Mirrors(m[b := o], lists, slots)
  {
    forall i, j | At(slots, i, j)
      ensures slots[i][j].block != b
    {}
  }
}
