/** Concurrent `removeFromWheel` calls on one timer: who wins, and what the lists look like after. */
module StoreWheelRace {
  import opened Sequences
  import opened StoreModel
  import opened StoreInvariant
  import opened StoreWheelSteps
  import opened StoreRuns
  import opened StoreLocking

  /** The step is the mutex section of a `removeFromWheel` on `t` that returns true. */
  predicate WinsRemoval(s: Store, tid: Tid, a: Action, t: Ptr)
    requires Enabled(s, tid, a)
  {
    a.UnlinkWheel? && s.threads[tid].refs[s.threads[tid].pc.x] == t && s.objs[t].wheel < NO_WHEEL
  }

  /** The step decides that a `removeFromWheel` on `t` returns false, inside the mutex or before it. */
  predicate LosesRemoval(s: Store, tid: Tid, a: Action, t: Ptr)
    requires Enabled(s, tid, a)
  {
    || (a.UnlinkWheel? && s.threads[tid].refs[s.threads[tid].pc.x] == t && s.objs[t].wheel >= NO_WHEEL)
    || (a.BeginWheelRemove? && s.threads[tid].refs[a.x] == t && s.objs[t].wheel >= NO_WHEEL)
  }

  /** The step is the mutex section of an `addToWheel` on `t`. */
  predicate LinksTimer(s: Store, tid: Tid, a: Action, t: Ptr)
    requires Enabled(s, tid, a)
  {
    a.LinkWheel? && s.threads[tid].pc.t == t
  }

  function OneIf(b: bool): nat {
    if b then 1 else 0
  }

  // ----- one step -----

  lemma HistoryGrows(s: Store, tid: Tid, a: Action, t: Ptr)
    requires Enabled(s, tid, a) && t in s.objs
    ensures t in Next(s, tid, a).objs
    ensures Next(s, tid, a).objs[t].wins == s.objs[t].wins + OneIf(WinsRemoval(s, tid, a, t))
    ensures Next(s, tid, a).objs[t].links == s.objs[t].links + OneIf(LinksTimer(s, tid, a, t))
  {
    if a.LinkWheel? || a.UnlinkWheel? {
      hide PushNode, HitNode;
      WheelHistoryGrows(s, tid, a, t);
    } else {
      hide LinkNode, UnlinkNode;
    }
  }

  lemma WheelHistoryGrows(s: Store, tid: Tid, a: Action, t: Ptr)
    requires Enabled(s, tid, a) && t in s.objs && (a.LinkWheel? || a.UnlinkWheel?)
    ensures t in Next(s, tid, a).objs
    ensures Next(s, tid, a).objs[t].wins == s.objs[t].wins + OneIf(WinsRemoval(s, tid, a, t))
    ensures Next(s, tid, a).objs[t].links == s.objs[t].links + OneIf(LinksTimer(s, tid, a, t))
  {}

  /** Every link is undone by one win, and every win undoes a link. */
  lemma RaceStep(s: Store, tid: Tid, a: Action, t: Ptr)
    requires Inv(s) && Enabled(s, tid, a) && StepIsSafe(s, tid, a) && t in s.objs
    ensures t in Next(s, tid, a).objs
    ensures OneIf(InWheel(s, t)) + OneIf(LinksTimer(s, tid, a, t))
            == OneIf(WinsRemoval(s, tid, a, t)) + OneIf(InWheel(Next(s, tid, a), t))
    ensures LosesRemoval(s, tid, a, t) ==> !InWheel(s, t)
  {
    assert CountOk(s, t) && WheelsOk(s);
    assert s.objs[t].wins + OneIf(InWheel(s, t)) == s.objs[t].links;
    HistoryGrows(s, tid, a, t);
    StepKeepsInv(s, tid, a);
    LeavesHistory(Next(s, tid, a), t);
    hide Inv, Next, CountOk, StepIsSafe, Enabled;
  }

  lemma LeavesHistory(s: Store, t: Ptr)
    requires Inv(s) && t in s.objs
    ensures s.objs[t].wins + OneIf(InWheel(s, t)) == s.objs[t].links
  {
    assert CountOk(s, t);
  }

  // ----- whole runs -----

  ghost function Wins(s: Store, run: seq<Step>, t: Ptr): nat
    requires Legal(s, run)
    decreases |run|
  {
    if run == [] then 0
    else OneIf(WinsRemoval(s, run[0].tid, run[0].a, t)) + Wins(Next(s, run[0].tid, run[0].a), run[1..], t)
  }

  ghost function Losses(s: Store, run: seq<Step>, t: Ptr): nat
    requires Legal(s, run)
    decreases |run|
  {
    if run == [] then 0
    else OneIf(LosesRemoval(s, run[0].tid, run[0].a, t)) + Losses(Next(s, run[0].tid, run[0].a), run[1..], t)
  }

  ghost function Links(s: Store, run: seq<Step>, t: Ptr): nat
    requires Legal(s, run)
    decreases |run|
  {
    if run == [] then 0
    else OneIf(LinksTimer(s, run[0].tid, run[0].a, t)) + Links(Next(s, run[0].tid, run[0].a), run[1..], t)
  }

  /** In every interleaving, wins never outnumber additions, and the timer is in a wheel iff one is unanswered. */
  lemma {:induction false} WinsMatchLinks(s: Store, run: seq<Step>, t: Ptr)
    requires Inv(s) && Legal(s, run) && t in s.objs
    ensures OneIf(InWheel(s, t)) + Links(s, run, t) == Wins(s, run, t) + OneIf(InWheel(After(s, run), t))
    decreases |run|
  {
    hide Inv, StepIsSafe, Enabled, Next, InWheel, WinsRemoval, LinksTimer, LosesRemoval, OneIf;
    if run != [] {
      RaceStep(s, run[0].tid, run[0].a, t);
      StepKeepsInv(s, run[0].tid, run[0].a);
      WinsMatchLinks(Next(s, run[0].tid, run[0].a), run[1..], t);
    }
  }

  /** Without another addition, a timer that left its wheel stays out, and a call that returned means it left. */
  lemma {:induction false} ReturnedMeansOut(s: Store, run: seq<Step>, t: Ptr)
    requires Inv(s) && Legal(s, run) && t in s.objs && Links(s, run, t) == 0
    ensures !InWheel(s, t) || Wins(s, run, t) + Losses(s, run, t) > 0 ==> !InWheel(After(s, run), t)
    decreases |run|
  {
    hide Inv, StepIsSafe, Enabled, Next, InWheel, WinsRemoval, LinksTimer, LosesRemoval;
    if run != [] {
      RaceStep(s, run[0].tid, run[0].a, t);
      StepKeepsInv(s, run[0].tid, run[0].a);
      ReturnedMeansOut(Next(s, run[0].tid, run[0].a), run[1..], t);
    }
  }

  /**
   * The race: among any number of `removeFromWheel` calls on a timer that is in a wheel
   * and is not added again, at most one returns true, and exactly one has as soon as any
   * has returned; the timer is then in no wheel.
   */
  lemma OneWinner(s: Store, run: seq<Step>, t: Ptr)
    requires Inv(s) && Legal(s, run) && t in s.objs && Links(s, run, t) == 0
    ensures Wins(s, run, t) <= 1
    ensures InWheel(s, t) && Wins(s, run, t) + Losses(s, run, t) > 0 ==>
              Wins(s, run, t) == 1 && !InWheel(After(s, run), t)
    ensures !InWheel(s, t) ==> Wins(s, run, t) == 0
  {
    hide Inv, Legal, After, InWheel, Wins, Losses, Links;
    WinsMatchLinks(s, run, t);
    ReturnedMeansOut(s, run, t);
  }

  // ----- the second read -----

  lemma OthersKeepThread(s: Store, tid: Tid, u: Tid, a: Action)
    requires Enabled(s, u, a) && u != tid && tid in s.threads
    ensures tid in Next(s, u, a).threads && Next(s, u, a).threads[tid] == s.threads[tid]
  {
    hide PushNode, HitNode, LinkNode, UnlinkNode;
    if a.Push? || a.Hit? || a.LinkWheel? || a.UnlinkWheel? { RelinkingKeepsThread(s, tid, u, a); }
  }

  lemma RelinkingKeepsThread(s: Store, tid: Tid, u: Tid, a: Action)
    requires Enabled(s, u, a) && u != tid && tid in s.threads
    requires a.Push? || a.Hit? || a.LinkWheel? || a.UnlinkWheel?
    ensures tid in Next(s, u, a).threads && Next(s, u, a).threads[tid] == s.threads[tid]
  {
    hide Cut, IndexOf;
  }

  /** Nobody adds a timer to a wheel while a thread is removing it. */
  lemma NoLinkWhileRemoving(s: Store, tid: Tid, u: Tid, a: Action, t: Ptr)
    requires Inv(s) && Enabled(s, u, a) && u != tid && tid in s.threads && RemovingOf(s.threads[tid]) == t
    ensures !LinksTimer(s, u, a, t)
  {
    hide PcOk, LocksOk, ChainsOk, WheelsOk, CountOk, WheelFieldOk, RoleOk;
    assert Apart(s.threads[u], s.threads[tid]);
  }

  lemma {:induction false} RemoverWaits(s: Store, run: seq<Step>, tid: Tid, t: Ptr)
    requires Inv(s) && Legal(s, run) && tid in s.threads && RemovingOf(s.threads[tid]) == t
    requires forall k :: 0 <= k < |run| ==> run[k].tid != tid
    ensures tid in After(s, run).threads && After(s, run).threads[tid] == s.threads[tid]
    ensures Links(s, run, t) == 0
    decreases |run|
  {
    hide Inv, Enabled, Next, StepIsSafe, LinksTimer, RemovingOf;
    if run != [] {
      OthersKeepThread(s, tid, run[0].tid, run[0].a);
      NoLinkWhileRemoving(s, tid, run[0].tid, run[0].a, t);
      StepKeepsInv(s, run[0].tid, run[0].a);
      assert forall k :: 0 <= k < |run[1..]| ==> run[1..][k] == run[k + 1];
      RemoverWaits(Next(s, run[0].tid, run[0].a), run[1..], tid, t);
    }
  }

  lemma RemoverSees(s: Store, tid: Tid, t: Ptr)
    requires Inv(s) && tid in s.threads && s.threads[tid].pc.WheelRead? && RemovingOf(s.threads[tid]) == t
    ensures Enabled(s, tid, ReadWheel) && t in s.objs
    ensures s.objs[t].wheel < NO_WHEEL <==> InWheel(s, t)
    ensures StepIsSafe(s, tid, ReadWheel) <==> s.objs[t].wheel < NO_WHEEL
  {
    hide ChainsOk, ExclusionOk, CountOk, WheelFieldOk;
    assert PcOk(s, tid);
  }

  /**
   * `removeFromWheel` reads `timer->wheel` twice. After the first read has found a wheel,
   * and whatever the other threads do until the second, the mutex that is locked then
   * belongs to the array if and only if no other removal of the timer has won in between.
   */
  lemma SecondReadIsSafeExactly(s: Store, run: seq<Step>, tid: Tid, t: Ptr)
    requires Inv(s) && Legal(s, run) && tid in s.threads && s.threads[tid].pc.WheelRead? && RemovingOf(s.threads[tid]) == t
    requires t in s.objs && s.objs[t].wheel < NO_WHEEL && forall k :: 0 <= k < |run| ==> run[k].tid != tid
    ensures Enabled(After(s, run), tid, ReadWheel)
    ensures StepIsSafe(After(s, run), tid, ReadWheel) <==> Wins(s, run, t) == 0
  {
    hide Inv, Legal, After, Enabled, StepIsSafe, InWheel, Wins, Links, RemovingOf;
    RemoverSees(s, tid, t);
    RemoverWaits(s, run, tid, t);
    RunKeepsInv(s, run);
    RemoverSees(After(s, run), tid, t);
    WinsMatchLinks(s, run, t);
  }

  /** Two idle threads hold references to a timer that is in a wheel and that nobody is adding to one. */
  ghost predicate Contended(s: Store, u: Tid, v: Tid, x: nat, y: nat, t: Ptr) {
    && u != v && u in s.threads && v in s.threads && s.threads[u].pc.Idle? && s.threads[v].pc.Idle?
    && x in s.threads[u].refs && s.threads[u].refs[x] == t && y in s.threads[v].refs && s.threads[v].refs[y] == t
    && InWheel(s, t) && forall w :: w in s.threads ==> ExclusiveOf(s.threads[w].pc) != t
  }

  /** The other thread removes the timer from beginning to end of the mutex section. */
  function Overtake(v: Tid, y: nat): seq<Step> {
    [Step(v, BeginWheelRemove(y)), Step(v, ReadWheel), Step(v, UnlinkWheel)]
  }

  lemma FirstReadRuns(s: Store, u: Tid, x: nat, t: Ptr)
    requires Inv(s) && u in s.threads && s.threads[u].pc.Idle? && x in s.threads[u].refs && s.threads[u].refs[x] == t
    requires InWheel(s, t) && forall w :: w in s.threads ==> ExclusiveOf(s.threads[w].pc) != t
    ensures Enabled(s, u, BeginWheelRemove(x)) && StepIsSafe(s, u, BeginWheelRemove(x)) && t in s.objs && s.objs[t].wheel < NO_WHEEL
    ensures Next(s, u, BeginWheelRemove(x)) == WithPc(s, u, WheelRead(x))
  {
    hide PcOk, ChainsOk, ExclusionOk, CountOk, WheelFieldOk;
    var key := Slot(s.objs[t].wheel, s.objs[t].slot);
    assert key in s.wheels && t in s.wheels[key];
  }

  lemma SecondReadRuns(s: Store, v: Tid, y: nat, t: Ptr)
    requires Inv(s) && v in s.threads && s.threads[v].pc == WheelRead(y) && y in s.threads[v].refs && s.threads[v].refs[y] == t
    requires InWheel(s, t)
    ensures Enabled(s, v, ReadWheel) && StepIsSafe(s, v, ReadWheel) && t in s.objs && s.objs[t].wheel < NO_WHEEL
    ensures Next(s, v, ReadWheel) == WithPc(s, v, WheelUnlink(y, s.objs[t].wheel))
    ensures Inv(Next(s, v, ReadWheel)) && Enabled(Next(s, v, ReadWheel), v, UnlinkWheel)
    ensures WinsRemoval(Next(s, v, ReadWheel), v, UnlinkWheel, t)
  {
    hide Inv;
    RemoverSees(s, v, t);
    StepKeepsInv(s, v, ReadWheel);
    UnlinkerSeesTimer(Next(s, v, ReadWheel), v);
  }

  /** The run of the overtaking thread is possible, safe, and wins. */
  lemma OvertakingWins(s: Store, v: Tid, y: nat, t: Ptr)
    requires Inv(s) && v in s.threads && s.threads[v].pc.Idle? && y in s.threads[v].refs && s.threads[v].refs[y] == t
    requires InWheel(s, t) && forall w :: w in s.threads ==> ExclusiveOf(s.threads[w].pc) != t
    ensures Legal(s, Overtake(v, y)) && Wins(s, Overtake(v, y), t) == 1
  {
    hide Inv, Enabled, Next, StepIsSafe, WinsRemoval;
    FirstReadRuns(s, v, y, t);
    StepKeepsInv(s, v, BeginWheelRemove(y));
    var s1 := Next(s, v, BeginWheelRemove(y));
    SecondReadRuns(s1, v, y, t);
    var s2 := Next(s1, v, ReadWheel);
    UnlinkIsSafe(s2, v);
    OnlyUnlinkWins(s, v, BeginWheelRemove(y), t);
    OnlyUnlinkWins(s1, v, ReadWheel, t);
    var last: seq<Step> := [];
    OneStepMore(s2, Step(v, UnlinkWheel), last, t);
    OneStepMore(s1, Step(v, ReadWheel), [Step(v, UnlinkWheel)] + last, t);
    OneStepMore(s, Step(v, BeginWheelRemove(y)), [Step(v, ReadWheel)] + ([Step(v, UnlinkWheel)] + last), t);
    assert Overtake(v, y) == [Step(v, BeginWheelRemove(y))] + ([Step(v, ReadWheel)] + ([Step(v, UnlinkWheel)] + last));
  }

  lemma OneStepMore(s: Store, step: Step, rest: seq<Step>, t: Ptr)
    requires Enabled(s, step.tid, step.a) && StepIsSafe(s, step.tid, step.a) && Legal(Next(s, step.tid, step.a), rest)
    ensures Legal(s, [step] + rest)
    ensures Wins(s, [step] + rest, t) == OneIf(WinsRemoval(s, step.tid, step.a, t)) + Wins(Next(s, step.tid, step.a), rest, t)
  {
    hide Enabled, StepIsSafe, Next, WinsRemoval;
    assert ([step] + rest)[0] == step && ([step] + rest)[1..] == rest;
  }

  lemma UnlinkIsSafe(s: Store, v: Tid)
    requires Enabled(s, v, UnlinkWheel)
    ensures StepIsSafe(s, v, UnlinkWheel)
  {}

  lemma OnlyUnlinkWins(s: Store, v: Tid, a: Action, t: Ptr)
    requires Enabled(s, v, a) && !a.UnlinkWheel?
    ensures !WinsRemoval(s, v, a, t)
  {}

  /**
   * The case that the double check does not cover: whenever two idle threads hold a
   * timer that is in a wheel, one may win between the two reads of the other, which then
   * locks the mutex of `wheels + 3`.
   */
  lemma OvertakenRemoverLeavesArray(s: Store, u: Tid, v: Tid, x: nat, y: nat, t: Ptr)
    requires Inv(s) && Contended(s, u, v, x, y, t)
    ensures Enabled(s, u, BeginWheelRemove(x))
    ensures var s1 := Next(s, u, BeginWheelRemove(x));
            Legal(s1, Overtake(v, y))
            && var s2 := After(s1, Overtake(v, y));
               Enabled(s2, u, ReadWheel) && u in Next(s2, u, ReadWheel).threads
               && Next(s2, u, ReadWheel).threads[u].pc.OutOfBounds?
  {
    hide Inv, Enabled, StepIsSafe, Legal, Wins, After, InWheel;
    FirstReadRuns(s, u, x, t);
    StepKeepsInv(s, u, BeginWheelRemove(x));
    var s1 := Next(s, u, BeginWheelRemove(x));
    SameWheelMembership(s, u, WheelRead(x), t);
    OvertakingWins(s1, v, y, t);
    SecondReadIsSafeExactly(s1, Overtake(v, y), u, t);
    UnsafeReadLeavesArray(After(s1, Overtake(v, y)), u);
  }

  lemma SameWheelMembership(s: Store, u: Tid, pc: Pc, t: Ptr)
    requires u in s.threads
    ensures InWheel(WithPc(s, u, pc), t) == InWheel(s, t)
  {}

  lemma UnsafeReadLeavesArray(s: Store, u: Tid)
    requires Enabled(s, u, ReadWheel) && !StepIsSafe(s, u, ReadWheel)
    ensures u in Next(s, u, ReadWheel).threads && Next(s, u, ReadWheel).threads[u].pc.OutOfBounds?
  {}

  // ----- the slot lists -----

  /** `q` without `t`, in order. */
  function Without(q: seq<Ptr>, t: Ptr): (r: seq<Ptr>)
    ensures t !in q ==> r == q
  {
    if q == [] then [] else (if q[0] == t then [] else [q[0]]) + Without(q[1..], t)
  }

  lemma TailIsDistinct(q: seq<Ptr>)
    requires q != [] && NoDuplicates(q)
    ensures NoDuplicates(q[1..]) && q[0] !in q[1..]
  {}

  lemma CutTail(q: seq<Ptr>, k: nat)
    requires 0 < k < |q|
    ensures Cut(q, k) == [q[0]] + Cut(q[1..], k - 1)
  {}

  lemma {:induction false} CutIsWithout(q: seq<Ptr>, k: nat)
    requires k < |q| && NoDuplicates(q)
    ensures Cut(q, k) == Without(q, q[k])
  {
    hide NoDuplicates;
    TailIsDistinct(q);
    if k == 0 {
      assert Cut(q, 0) == q[1..];
    } else {
      CutIsWithout(q[1..], k - 1);
      CutTail(q, k);
      assert q[1..][k - 1] == q[k] && q[k] in q[1..];
    }
  }

  /** The list of a slot changes only by a timer added in front or one taken out. */
  ghost predicate KeepsOrder(q: seq<Ptr>, q': seq<Ptr>, t: Ptr) {
    (t !in q && q' == [t] + q) || (t in q && q' == Without(q, t))
  }

  /** Only slot `key` changed, by adding or taking out `t`. */
  ghost predicate OneSlotChanged(s: Store, s': Store, key: Slot, t: Ptr) {
    && key in s.wheels && key in s'.wheels && s'.wheels == s.wheels[key := s'.wheels[key]]
    && KeepsOrder(s.wheels[key], s'.wheels[key], t)
  }

  /** A step changes at most one slot list, and the timers it does not add or take out keep their order. */
  lemma SlotListsKeepOrder(s: Store, tid: Tid, a: Action)
    requires Inv(s) && Enabled(s, tid, a)
    ensures Next(s, tid, a).wheels == s.wheels
            || exists key, t :: OneSlotChanged(s, Next(s, tid, a), key, t)
                 && (LinksTimer(s, tid, a, t) || WinsRemoval(s, tid, a, t))
  {
    hide Inv, Next, OneSlotChanged, InWheel;
    if a.LinkWheel? {
      LinkKeepsOrder(s, tid, s.threads[tid].pc.t);
    } else if a.UnlinkWheel? && s.objs[s.threads[tid].refs[s.threads[tid].pc.x]].wheel < NO_WHEEL {
      UnlinkKeepsOrder(s, tid, s.threads[tid].refs[s.threads[tid].pc.x]);
    } else {
      OtherStepsKeepWheels(s, tid, a);
    }
  }

  lemma OtherStepsKeepWheels(s: Store, tid: Tid, a: Action)
    requires Enabled(s, tid, a) && !a.LinkWheel?
    requires a.UnlinkWheel? ==> s.objs[s.threads[tid].refs[s.threads[tid].pc.x]].wheel >= NO_WHEEL
    ensures Next(s, tid, a).wheels == s.wheels
  {
    hide LinkNode, UnlinkNode;
    if a.Push? || a.Hit? { ChainStepsKeepWheels(s, tid, a); }
  }

  lemma ChainStepsKeepWheels(s: Store, tid: Tid, a: Action)
    requires Enabled(s, tid, a) && (a.Push? || a.Hit?)
    ensures Next(s, tid, a).wheels == s.wheels
  {
    hide LinkNode, UnlinkNode;
  }

  lemma LinkKeepsOrder(s: Store, tid: Tid, t: Ptr)
    requires Inv(s) && Enabled(s, tid, LinkWheel) && t == s.threads[tid].pc.t
    ensures var key := Slot(s.objs[t].wheel, s.threads[tid].pc.sl);
            OneSlotChanged(s, Next(s, tid, LinkWheel), key, t)
  {
    hide PcOk, LocksOk, ChainsOk, ExclusionOk, CountOk, WheelFieldOk;
    OwnerIsAlone(s, tid, t);
    var key := Slot(s.objs[t].wheel, s.threads[tid].pc.sl);
    assert t !in s.wheels[key];
  }

  lemma UnlinkKeepsOrder(s: Store, tid: Tid, t: Ptr)
    requires Inv(s) && Enabled(s, tid, UnlinkWheel) && t == s.threads[tid].refs[s.threads[tid].pc.x]
    requires s.objs[t].wheel < NO_WHEEL
    ensures OneSlotChanged(s, Next(s, tid, UnlinkWheel), Slot(s.objs[t].wheel, s.objs[t].slot), t)
  {
    UnlinkFinds(s, tid);
    UnlinkRuns(s, tid, t);
    hide PcOk, LocksOk, ChainsOk, ExclusionOk, CountOk, WheelFieldOk, Next, Enabled, NoDuplicates, OneSlotChanged;
    UnlinkedSlot(s, UnlinkNode(s, tid, t, s.objs[t].wheel), tid, t);
  }

  lemma UnlinkedSlot(s: Store, s': Store, tid: Tid, t: Ptr)
    requires tid in s.threads && InWheel(s, t) && WheelsOk(s) && s' == UnlinkNode(s, tid, t, s.objs[t].wheel)
    ensures OneSlotChanged(s, s', Slot(s.objs[t].wheel, s.objs[t].slot), t)
  {
    var key := Slot(s.objs[t].wheel, s.objs[t].slot);
    assert NoDuplicates(s.wheels[key]);
    hide WheelsOk;
    CutIsWithout(s.wheels[key], IndexOf(s.wheels[key], t));
    hide NoDuplicates, Without, Cut, IndexOf;
  }
}
