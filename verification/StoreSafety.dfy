/** The safety of the timer store over whole runs, from the initialised store on. */
module StoreSafety {
  import opened StoreModel
  import opened StoreInvariant
  import opened StoreRuns
  import opened StoreLifetime
  import opened StoreLocking

  /** The counters tell the references, and a timer is live exactly while it has one. */
  ghost predicate CountsRight(s: Store)
    requires |s.chains| > 0
  {
    forall t :: t in s.objs ==>
      s.objs[t].refCount == References(s, t) % 256 && (s.objs[t].life == Live <==> References(s, t) > 0)
  }

  /** No chain, no wheel slot and no step that a thread can take reaches a freed timer. */
  ghost predicate NothingDangles(s: Store)
    requires |s.chains| > 0
  {
    && (forall h, t :: 0 <= h < |s.chains| && t in s.chains[h] ==> t in s.objs && s.objs[t].life == Live)
    && (forall key, t :: key in s.wheels && t in s.wheels[key] ==> t in s.objs && s.objs[t].life == Live)
    && (forall tid, a, p :: Enabled(s, tid, a) && p in Touches(s, tid, a) ==> p in s.objs && !s.objs[p].life.Freed?)
  }

  /** At most one thread is inside a chain, and no assertion has failed. */
  ghost predicate LocksHold(s: Store)
    requires |s.chains| > 0
  {
    && (forall u :: u in s.threads ==> !s.threads[u].pc.Failed?)
    && (forall u, v :: u in s.threads && v in s.threads && u != v && 0 <= Inside(s, s.threads[u].pc) < |s.chains| ==>
          Inside(s, s.threads[u].pc) != Inside(s, s.threads[v].pc))
  }

  lemma InvCounts(s: Store)
    requires |s.chains| > 0 && Inv(s)
    ensures CountsRight(s)
  {
    hide Inv, References;
    forall t | t in s.objs
      ensures s.objs[t].refCount == References(s, t) % 256 && (s.objs[t].life == Live <==> References(s, t) > 0)
    {
      RefCountIsReferences(s, t);
    }
  }

  lemma InvDangles(s: Store)
    requires |s.chains| > 0 && Inv(s)
    ensures NothingDangles(s)
  {
    hide Inv, Enabled, Touches;
    forall t
      ensures forall h :: 0 <= h < |s.chains| && t in s.chains[h] ==> t in s.objs && s.objs[t].life == Live
      ensures forall key :: key in s.wheels && t in s.wheels[key] ==> t in s.objs && s.objs[t].life == Live
    {
      LinkedIsLive(s, t);
    }
    forall tid, a, p | Enabled(s, tid, a) && p in Touches(s, tid, a)
      ensures p in s.objs && !s.objs[p].life.Freed?
    {
      NoStepTouchesFreed(s, tid, a, p);
    }
  }

  lemma InvLocks(s: Store)
    requires |s.chains| > 0 && Inv(s)
    ensures LocksHold(s)
  {
    hide Inv, Inside;
    ChainLocksExclude(s, 0);
    forall u, v | u in s.threads && v in s.threads && u != v && 0 <= Inside(s, s.threads[u].pc) < |s.chains|
      ensures Inside(s, s.threads[u].pc) != Inside(s, s.threads[v].pc)
    {
      ChainLocksExclude(s, Inside(s, s.threads[u].pc));
    }
  }

  /** Every state that any interleaving of any number of threads reaches is safe. */
  lemma EveryReachableStateIsSafe(s: Store, run: seq<Step>)
    requires |s.chains| > 0 && Initial(s) && Legal(s, run)
    ensures var r := After(s, run);
            CountsRight(r) && NothingDangles(r) && LocksHold(r)
  {
    hide Initial, Legal, Inv, CountsRight, NothingDangles, LocksHold;
    InitialInv(s);
    RunKeepsInv(s, run);
    InvCounts(After(s, run));
    InvDangles(After(s, run));
    InvLocks(After(s, run));
  }
}
