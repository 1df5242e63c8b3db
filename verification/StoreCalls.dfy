/**
 * Whole calls of the timer store, from their arguments to their effect, while any number
 * of other threads interleave: what a call was given is what its last step acts on.
 */
module StoreCalls {
  import opened StoreModel
  import opened StoreInvariant
  import opened StoreRuns
  import opened StoreMap
  import opened StoreWheelSteps
  import opened StoreWheelRace

  /** A call and its arguments; for `Adding` also the id of the timer, for `Unlinking` the timer in the variable. */
  datatype Call =
    | Finding(id: nat, x: nat)
    | Deleting(id: nat)
    | Adding(t: Ptr, id: nat)
    | Linking(t: Ptr, w: nat, sl: nat)
    | Unlinking(x: nat, t: Ptr)

  /** Thread `tid` is in the middle of the call, before the step that decides it; its variables are still `refs`. */
  ghost predicate InCall(s: Store, tid: Tid, call: Call, refs: map<nat, Ptr>) {
    tid in s.threads && s.threads[tid].refs == refs &&
    var pc := s.threads[tid].pc;
    match call
    case Finding(id, x) => pc == Lock(Find(id, x)) || (pc.Walk? && pc.task == Find(id, x))
    case Deleting(id) => pc == Lock(Remove(id)) || (pc.Walk? && pc.task == Remove(id))
    case Adding(t, id) =>
      (pc == AddInit(t) || pc == Lock(Add(t)) || (pc.Walk? && pc.task == Add(t))) && t in s.objs && s.objs[t].id == id
    case Linking(t, w, sl) =>
      pc == WheelSet(t, w, sl) || (pc == WheelLink(t, sl) && t in s.objs && s.objs[t].wheel == w)
    case Unlinking(x, t) =>
      (pc == WheelRead(x) || (pc.WheelUnlink? && pc.x == x)) && x in refs && refs[x] == t
  }

  /** The step that decides the call. */
  predicate Decides(call: Call, a: Action) {
    match call
    case Finding(_, _) => a.Hit? || a.EndOfChain?
    case Deleting(_) => a.Hit? || a.EndOfChain?
    case Adding(_, _) => a.Push?
    case Linking(_, _, _) => a.LinkWheel?
    case Unlinking(_, _) => a.UnlinkWheel?
  }

  /** The thread itself stays in the call until the step that decides it. */
  lemma OwnStepStaysInCall(s: Store, tid: Tid, call: Call, refs: map<nat, Ptr>, a: Action)
    requires Enabled(s, tid, a) && StepIsSafe(s, tid, a) && InCall(s, tid, call, refs) && !Decides(call, a)
    ensures InCall(Next(s, tid, a), tid, call, refs)
  {
    hide PushNode, HitNode, LinkNode, UnlinkNode;
  }

  /** Nobody else changes the wheel of a timer that a thread is adding to a wheel. */
  lemma OwnedWheelIsKept(s: Store, tid: Tid, u: Tid, a: Action, t: Ptr)
    requires Inv(s) && Enabled(s, u, a) && u != tid && tid in s.threads && ExclusiveOf(s.threads[tid].pc) == t
    ensures t in s.objs && t in Next(s, u, a).objs && Next(s, u, a).objs[t].wheel == s.objs[t].wheel
  {
    OwnerIsAlone(s, tid, t);
    hide Inv;
    WheelWriters(s, u, a, t);
  }

  lemma WheelWriters(s: Store, u: Tid, a: Action, t: Ptr)
    requires Enabled(s, u, a) && t in s.objs
    requires ExclusiveOf(s.threads[u].pc) != t && RemovingOf(s.threads[u]) != t
    ensures t in Next(s, u, a).objs && Next(s, u, a).objs[t].wheel == s.objs[t].wheel
  {
    if a.LinkWheel? || a.UnlinkWheel? {
      hide PushNode, HitNode;
      SectionKeepsOthersWheel(s, u, a, t);
    } else {
      hide LinkNode, UnlinkNode, IndexOf;
    }
  }

  lemma SectionKeepsOthersWheel(s: Store, u: Tid, a: Action, t: Ptr)
    requires Enabled(s, u, a) && t in s.objs && (a.LinkWheel? || a.UnlinkWheel?)
    requires ExclusiveOf(s.threads[u].pc) != t && RemovingOf(s.threads[u]) != t
    ensures t in Next(s, u, a).objs && Next(s, u, a).objs[t].wheel == s.objs[t].wheel
  {}

  lemma OtherStepStaysInCall(s: Store, tid: Tid, call: Call, refs: map<nat, Ptr>, u: Tid, a: Action)
    requires Inv(s) && Enabled(s, u, a) && u != tid && InCall(s, tid, call, refs)
    ensures InCall(Next(s, u, a), tid, call, refs)
  {
    hide Inv, Enabled, Next;
    OthersKeepThread(s, tid, u, a);
    if call.Adding? { IdIsKept(s, u, a, call.t); }
    if call.Linking? { OwnedWheelIsKept(s, tid, u, a, call.t); }
  }

  /** Whatever the interleaving, the call keeps its arguments until the step that decides it. */
  lemma {:induction false} CallKeepsItsArguments(s: Store, run: seq<Step>, tid: Tid, call: Call, refs: map<nat, Ptr>)
    requires Inv(s) && Legal(s, run) && InCall(s, tid, call, refs)
    requires forall k :: 0 <= k < |run| && run[k].tid == tid ==> !Decides(call, run[k].a)
    ensures Inv(After(s, run)) && InCall(After(s, run), tid, call, refs)
    decreases |run|
  {
    hide Inv, Enabled, Next, StepIsSafe, InCall, Decides;
    if run != [] {
      if run[0].tid == tid {
        OwnStepStaysInCall(s, tid, call, refs, run[0].a);
      } else {
        OtherStepStaysInCall(s, tid, call, refs, run[0].tid, run[0].a);
      }
      StepKeepsInv(s, run[0].tid, run[0].a);
      assert forall k :: 0 <= k < |run[1..]| ==> run[1..][k] == run[k + 1];
      CallKeepsItsArguments(Next(s, run[0].tid, run[0].a), run[1..], tid, call, refs);
    }
  }

  /** The run between the first step of a call and the one that decides it. */
  ghost predicate Between(s: Store, tid: Tid, first: Action, run: seq<Step>, call: Call) {
    && Enabled(s, tid, first) && StepIsSafe(s, tid, first) && Legal(Next(s, tid, first), run)
    && forall k :: 0 <= k < |run| && run[k].tid == tid ==> !Decides(call, run[k].a)
  }

  /** The state in which the call is decided. */
  ghost function Decided(s: Store, tid: Tid, first: Action, run: seq<Step>, call: Call): Store
    requires Between(s, tid, first, run, call)
  {
    After(Next(s, tid, first), run)
  }

  lemma CallReaches(s: Store, tid: Tid, first: Action, run: seq<Step>, call: Call, refs: map<nat, Ptr>)
    requires Inv(s) && Between(s, tid, first, run, call) && InCall(Next(s, tid, first), tid, call, refs)
    ensures Inv(Decided(s, tid, first, run, call)) && InCall(Decided(s, tid, first, run, call), tid, call, refs)
  {
    hide Inv, InCall, Enabled, Next, StepIsSafe, Legal, After;
    StepKeepsInv(s, tid, first);
    CallKeepsItsArguments(Next(s, tid, first), run, tid, call, refs);
  }

  // ----- findTimer -----

  /** `findTimer(0)` does nothing. */
  lemma FindZero(s: Store, tid: Tid, x: nat)
    requires Enabled(s, tid, BeginFind(0, x))
    ensures Next(s, tid, BeginFind(0, x)) == s && s.threads[tid].pc.Idle? && x !in s.threads[tid].refs
  {}

  /**
   * `findTimer(id)` as a whole, the result going to variable `x`: when its walk ends, `x`
   * holds a timer if and only if `id` is mapped at that step, namely the mapped one, and
   * the other variables of the thread are as they were.
   */
  lemma FindCall(s: Store, tid: Tid, id: nat, x: nat, run: seq<Step>, a: Action)
    requires Inv(s) && Between(s, tid, BeginFind(id, x), run, Finding(id, x)) && id > 0
    requires var r := Decided(s, tid, BeginFind(id, x), run, Finding(id, x));
             Enabled(r, tid, a) && (a.Hit? || a.EndOfChain?)
    ensures var r := Decided(s, tid, BeginFind(id, x), run, Finding(id, x));
            Inv(r) && tid in Next(r, tid, a).threads &&
            var refs' := Next(r, tid, a).threads[tid].refs;
            && (x in refs' <==> id in View(r))
            && (id in View(r) ==> refs'[x] == View(r)[id])
            && (forall y :: y != x ==> (y in refs' <==> y in s.threads[tid].refs))
            && (forall y :: y != x && y in refs' ==> refs'[y] == s.threads[tid].refs[y])
  {
    var first, call, refs := BeginFind(id, x), Finding(id, x), s.threads[tid].refs;
    BeginsFind(s, tid, id, x);
    hide Inv, Enabled, StepIsSafe, Legal, After, View;
    CallReaches(s, tid, first, run, call, refs);
    var r := Decided(s, tid, first, run, call);
    WalkerHasTask(r, tid, a, call, refs);
    FindReturnsTheMappedTimer(r, tid, a);
    FindTouchesOneVariable(r, tid, a);
  }

  lemma BeginsFind(s: Store, tid: Tid, id: nat, x: nat)
    requires Enabled(s, tid, BeginFind(id, x)) && id > 0
    ensures InCall(Next(s, tid, BeginFind(id, x)), tid, Finding(id, x), s.threads[tid].refs)
  {}

  lemma WalkerHasTask(s: Store, tid: Tid, a: Action, call: Call, refs: map<nat, Ptr>)
    requires Enabled(s, tid, a) && (a.Hit? || a.EndOfChain?) && InCall(s, tid, call, refs) && (call.Finding? || call.Deleting?)
    ensures s.threads[tid].pc.Walk? && s.threads[tid].refs == refs
    ensures s.threads[tid].pc.task == if call.Finding? then Find(call.id, call.x) else Remove(call.id)
  {}

  lemma FindTouchesOneVariable(s: Store, tid: Tid, a: Action)
    requires Enabled(s, tid, a) && (a.Hit? || a.EndOfChain?) && s.threads[tid].pc.task.Find?
    ensures tid in Next(s, tid, a).threads
    ensures var x, refs, refs' := s.threads[tid].pc.task.x, s.threads[tid].refs, Next(s, tid, a).threads[tid].refs;
            forall y :: y != x ==> (y in refs' <==> y in refs) && (y in refs ==> refs'[y] == refs[y])
  {}

  // ----- removeTimer -----

  /**
   * `removeTimer(id)` as a whole: when its walk ends, the entry of `id`, and no other,
   * leaves the map if there is one, and the thread is left with the map's reference to
   * that timer to drop; otherwise the map stays as it is.
   */
  lemma RemoveCall(s: Store, tid: Tid, id: nat, run: seq<Step>, a: Action)
    requires Inv(s) && Between(s, tid, BeginRemove(id), run, Deleting(id))
    requires var r := Decided(s, tid, BeginRemove(id), run, Deleting(id));
             Enabled(r, tid, a) && (a.Hit? || a.EndOfChain?)
    ensures var r := Decided(s, tid, BeginRemove(id), run, Deleting(id));
            Inv(r) && Inv(Next(r, tid, a)) && tid in Next(r, tid, a).threads
            && View(Next(r, tid, a)) == View(r) - {id}
            && (a.Hit? <==> id in View(r))
            && (id in View(r) ==> FlightOf(Next(r, tid, a).threads[tid].pc) == View(r)[id])
            && (id !in View(r) ==> FlightOf(Next(r, tid, a).threads[tid].pc) == -1)
  {
    hide Inv, InCall, Enabled, Next, StepIsSafe, Legal, After, View;
    BeginsRemove(s, tid, id);
    CallReaches(s, tid, BeginRemove(id), run, Deleting(id), s.threads[tid].refs);
    var r := Decided(s, tid, BeginRemove(id), run, Deleting(id));
    WalkerHasTask(r, tid, a, Deleting(id), s.threads[tid].refs);
    RemoverDecides(r, tid, a);
  }

  lemma RemoverDecides(s: Store, tid: Tid, a: Action)
    requires Inv(s) && Enabled(s, tid, a) && (a.Hit? || a.EndOfChain?) && s.threads[tid].pc.Walk? && s.threads[tid].pc.task.Remove?
    ensures var id := s.threads[tid].pc.task.id;
            Inv(Next(s, tid, a)) && tid in Next(s, tid, a).threads
            && View(Next(s, tid, a)) == View(s) - {id}
            && (a.Hit? <==> id in View(s))
            && (id in View(s) ==> FlightOf(Next(s, tid, a).threads[tid].pc) == View(s)[id])
            && (id !in View(s) ==> FlightOf(Next(s, tid, a).threads[tid].pc) == -1)
  {
    hide Inv, Next, StepIsSafe, Enabled, View;
    RemoveFindsExactlyMapped(s, tid, a);
    WalkEndsWith(s, tid, a);
    if a.Hit? {
      RemoveDeletesOneEntry(s, tid);
    } else {
      OtherStepsKeepMap(s, tid, a);
      assert View(s) - {s.threads[tid].pc.task.id} == View(s);
    }
  }

  lemma BeginsRemove(s: Store, tid: Tid, id: nat)
    requires Enabled(s, tid, BeginRemove(id))
    ensures tid in s.threads && StepIsSafe(s, tid, BeginRemove(id))
    ensures InCall(Next(s, tid, BeginRemove(id)), tid, Deleting(id), s.threads[tid].refs)
  {}

  lemma WalkEndsWith(s: Store, tid: Tid, a: Action)
    requires Enabled(s, tid, a) && (a.Hit? || a.EndOfChain?) && s.threads[tid].pc.task.Remove?
    ensures tid in s.threads && tid in Next(s, tid, a).threads && StepIsSafe(s, tid, a)
    ensures FlightOf(Next(s, tid, a).threads[tid].pc) == if a.Hit? then NodeAt(s, s.threads[tid].pc) else -1
  {}

  // ----- addTimer -----

  /** `addTimer(t)` as a whole: the step that publishes adds exactly the entry of the id of `t`, for `t`. */
  lemma AddCall(s: Store, tid: Tid, t: Ptr, run: seq<Step>)
    requires Inv(s) && Enabled(s, tid, BeginAdd(t)) && Between(s, tid, BeginAdd(t), run, Adding(t, s.objs[t].id))
    requires Enabled(Decided(s, tid, BeginAdd(t), run, Adding(t, s.objs[t].id)), tid, Push)
    ensures var r, id := Decided(s, tid, BeginAdd(t), run, Adding(t, s.objs[t].id)), s.objs[t].id;
            Inv(r) && Inv(Next(r, tid, Push)) && id !in View(r) && View(Next(r, tid, Push)) == View(r)[id := t]
  {
    var first, call, refs := BeginAdd(t), Adding(t, s.objs[t].id), s.threads[tid].refs;
    BeginsAdd(s, tid, t);
    hide Inv, Enabled, StepIsSafe, Legal, After, View;
    CallReaches(s, tid, first, run, call, refs);
    var r := Decided(s, tid, first, run, call);
    PusherHasTimer(r, tid, call, refs);
    AddAddsOneEntry(r, tid);
  }

  lemma BeginsAdd(s: Store, tid: Tid, t: Ptr)
    requires Enabled(s, tid, BeginAdd(t))
    ensures InCall(Next(s, tid, BeginAdd(t)), tid, Adding(t, s.objs[t].id), s.threads[tid].refs)
  {}

  lemma PusherHasTimer(s: Store, tid: Tid, call: Call, refs: map<nat, Ptr>)
    requires Enabled(s, tid, Push) && InCall(s, tid, call, refs) && call.Adding?
    ensures s.threads[tid].pc.Walk? && s.threads[tid].pc.task == Add(call.t)
    ensures call.t in s.objs && s.objs[call.t].id == call.id
  {}

  // ----- addToWheel -----

  /** `addToWheel(t)` as a whole, for wheel `w` and slot `sl`: its section puts `t` in front of that slot, and names it. */
  lemma LinkCall(s: Store, tid: Tid, t: Ptr, w: nat, sl: nat, run: seq<Step>)
    requires Inv(s) && Between(s, tid, BeginWheelAdd(t, w, sl), run, Linking(t, w, sl))
    requires Enabled(Decided(s, tid, BeginWheelAdd(t, w, sl), run, Linking(t, w, sl)), tid, LinkWheel)
    ensures var r := Decided(s, tid, BeginWheelAdd(t, w, sl), run, Linking(t, w, sl));
            var r', key := Next(r, tid, LinkWheel), Slot(w, sl);
            && Inv(r) && t in r'.objs && r'.objs[t].wheel == w && r'.objs[t].slot == sl
            && key in r.wheels && t !in r.wheels[key] && r'.wheels == r.wheels[key := [t] + r.wheels[key]]
  {
    hide Inv, InCall, Enabled, Next, StepIsSafe, Legal, After;
    BeginsLink(s, tid, t, w, sl);
    CallReaches(s, tid, BeginWheelAdd(t, w, sl), run, Linking(t, w, sl), s.threads[tid].refs);
    var r := Decided(s, tid, BeginWheelAdd(t, w, sl), run, Linking(t, w, sl));
    LinkerHasTimer(r, tid, Linking(t, w, sl), s.threads[tid].refs);
    NotLinkedYet(r, tid, t, Slot(w, sl));
  }

  lemma BeginsLink(s: Store, tid: Tid, t: Ptr, w: nat, sl: nat)
    requires Enabled(s, tid, BeginWheelAdd(t, w, sl))
    ensures tid in s.threads
    ensures InCall(Next(s, tid, BeginWheelAdd(t, w, sl)), tid, Linking(t, w, sl), s.threads[tid].refs)
  {}

  lemma LinkerHasTimer(s: Store, tid: Tid, call: Call, refs: map<nat, Ptr>)
    requires Enabled(s, tid, LinkWheel) && InCall(s, tid, call, refs) && call.Linking?
    ensures tid in s.threads && s.threads[tid].pc == WheelLink(call.t, call.sl) && call.t in s.objs && s.objs[call.t].wheel == call.w
    ensures var key, s' := Slot(call.w, call.sl), Next(s, tid, LinkWheel);
            && key in s.wheels && s'.wheels == s.wheels[key := [call.t] + s.wheels[key]]
            && call.t in s'.objs && s'.objs[call.t].wheel == call.w && s'.objs[call.t].slot == call.sl
  {}

  lemma NotLinkedYet(s: Store, tid: Tid, t: Ptr, key: Slot)
    requires Inv(s) && tid in s.threads && ExclusiveOf(s.threads[tid].pc) == t && key in s.wheels
    ensures t !in s.wheels[key]
  {
    hide PcOk, LocksOk, ChainsOk, ExclusionOk, CountOk, WheelFieldOk;
    OwnerIsAlone(s, tid, t);
  }

  // ----- removeFromWheel -----

  /** A timer that is in no wheel when the call begins: it returns false and changes nothing. */
  lemma UnlinkCallLosesAtOnce(s: Store, tid: Tid, x: nat)
    requires Enabled(s, tid, BeginWheelRemove(x)) && s.objs[s.threads[tid].refs[x]].wheel >= NO_WHEEL
    ensures Next(s, tid, BeginWheelRemove(x)) == s
  {}

  /**
   * `removeFromWheel` as a whole, on the timer that variable `x` held when it was called:
   * its section returns true if and only if that timer is in a wheel then, and in either
   * case it is in none after it.
   */
  lemma UnlinkCall(s: Store, tid: Tid, x: nat, t: Ptr, run: seq<Step>)
    requires Inv(s) && Between(s, tid, BeginWheelRemove(x), run, Unlinking(x, t))
    requires s.threads[tid].refs[x] == t && s.objs[t].wheel < NO_WHEEL
    requires Enabled(Decided(s, tid, BeginWheelRemove(x), run, Unlinking(x, t)), tid, UnlinkWheel)
    ensures var r := Decided(s, tid, BeginWheelRemove(x), run, Unlinking(x, t));
            && Inv(r) && t in r.objs
            && (WinsRemoval(r, tid, UnlinkWheel, t) <==> InWheel(r, t))
            && (LosesRemoval(r, tid, UnlinkWheel, t) <==> !InWheel(r, t))
            && !InWheel(Next(r, tid, UnlinkWheel), t)
  {
    var first, call, refs := BeginWheelRemove(x), Unlinking(x, t), s.threads[tid].refs;
    BeginsUnlink(s, tid, x, t);
    hide Inv, Enabled, StepIsSafe, Legal, After, InWheel;
    CallReaches(s, tid, first, run, call, refs);
    UnlinkerHasTimer(Decided(s, tid, first, run, call), tid, call, refs);
  }

  lemma BeginsUnlink(s: Store, tid: Tid, x: nat, t: Ptr)
    requires Enabled(s, tid, BeginWheelRemove(x)) && s.threads[tid].refs[x] == t && s.objs[t].wheel < NO_WHEEL
    ensures InCall(Next(s, tid, BeginWheelRemove(x)), tid, Unlinking(x, t), s.threads[tid].refs)
  {}

  lemma UnlinkerHasTimer(s: Store, tid: Tid, call: Call, refs: map<nat, Ptr>)
    requires Inv(s) && Enabled(s, tid, UnlinkWheel) && InCall(s, tid, call, refs) && call.Unlinking?
    ensures call.t in s.objs && (WinsRemoval(s, tid, UnlinkWheel, call.t) <==> InWheel(s, call.t))
    ensures LosesRemoval(s, tid, UnlinkWheel, call.t) <==> !InWheel(s, call.t)
    ensures !InWheel(Next(s, tid, UnlinkWheel), call.t)
  {
    hide Inv, InCall, Enabled, Next, StepIsSafe, InWheel, WinsRemoval, LosesRemoval;
    SectionArgument(s, tid, call, refs);
    WheelFieldTells(s, tid, call.t);
    UnlinkIsSafe(s, tid);
    RaceStep(s, tid, UnlinkWheel, call.t);
  }

  lemma SectionArgument(s: Store, tid: Tid, call: Call, refs: map<nat, Ptr>)
    requires Enabled(s, tid, UnlinkWheel) && InCall(s, tid, call, refs) && call.Unlinking?
    ensures s.threads[tid].pc.WheelUnlink? && s.threads[tid].pc.x in s.threads[tid].refs
    ensures s.threads[tid].refs[s.threads[tid].pc.x] == call.t && call.t in s.objs
    ensures WinsRemoval(s, tid, UnlinkWheel, call.t) <==> s.objs[call.t].wheel < NO_WHEEL
    ensures LosesRemoval(s, tid, UnlinkWheel, call.t) <==> s.objs[call.t].wheel >= NO_WHEEL
  {}

  lemma WheelFieldTells(s: Store, tid: Tid, t: Ptr)
    requires Enabled(s, tid, UnlinkWheel) && t in s.objs && s.threads[tid].pc.WheelUnlink?
    requires s.threads[tid].pc.x in s.threads[tid].refs && s.threads[tid].refs[s.threads[tid].pc.x] == t
    requires Inv(s)
    ensures InWheel(s, t) <==> s.objs[t].wheel < NO_WHEEL
  {
    hide Enabled, PcOk, LocksOk, ChainsOk, WheelsOk, ExclusionOk, CountOk, WheelFieldOk, InWheel;
    if s.objs[t].wheel < NO_WHEEL { UnlinkFinds(s, tid); } else { NamesOrNot(s, t); }
  }

  lemma NamesOrNot(s: Store, t: Ptr)
    requires WheelsOk(s) && t in s.objs && s.objs[t].wheel >= NO_WHEEL
    ensures !InWheel(s, t)
  {}
}
