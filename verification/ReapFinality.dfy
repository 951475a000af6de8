/** Termination is final: a terminated process that has left the run queue never re-enters it. */
module ReapFinality {
  import opened Common
  import opened ProcessPool
  import opened ReapProtocol
  import opened ReapTheorems

  /** Incarnation q lives in block i, is terminated and off the run queue. */
  predicate Finished(p: Pool, i: nat, q: int) {
    Here(p, i, q) && p.T[i].state == Terminated && !p.T[i].onQueue
  }

  ghost predicate Final(p: Pool, p': Pool) {
    |p'.T| == |p.T| && forall j :: 0 <= j < |p.T| ==>
      p.T[j].state == Terminated && !p.T[j].onQueue && p'.T[j].alive && p.T[j].alive ==>
        p'.T[j].state == Terminated && !p'.T[j].onQueue
  }

  lemma OpsFinal(p: Pool, i: nat)
    requires i < |p.T| && |p.table| == |p.tableSeq|
    ensures Unref(p, i).Some? ==> Final(p, Unref(p, i).value)
    ensures Ref(p, i).Some? ==> Final(p, Ref(p, i).value)
    ensures SchedAdd(p, i).Some? ==> Final(p, SchedAdd(p, i).value)
    ensures SchedRemove(p, i).Some? ==> Final(p, SchedRemove(p, i).value)
    ensures Final(p, SetReaped(p, i)) && Final(p, SetState(p, i, Terminated)) && Final(p, p)
  {
  }

  lemma ExitFinal(p: Pool, i: nat)
    requires i < |p.T|
    ensures Final(p, SetState(Reparent(p, p.T[i].pid), i, Terminated))
  {
  }

  lemma PickedFinal(p: Pool)
    requires |p.table| == |p.tableSeq| && PickFrom(p, 0).Some?
    ensures var (q, n) := PickFrom(p, 0).value;
      |q.T| == |p.T| && n < |p.T| && Final(p, q) && (n >= 0 ==> Final(p, SetState(q, n, Running)))
  {
    PickShape(p, 0);
    var (q, n) := PickFrom(p, 0).value;
    forall j | 0 <= j < |p.T|
      ensures q.T[j].onQueue ==> p.T[j].onQueue
      ensures q.T[j].state == p.T[j].state && (j == n ==> p.T[j].state != Terminated)
    {
      PickExactly(p, 0, j);
    }
  }

  lemma PickFinal(s: Sys, e: Event)
    requires WellShaped(s) && Step(s, e).Some? && (e.Pick? || e.Switch?)
    ensures Final(s.pool, Step(s, e).value.pool)
  {
    hide Final, PickFrom;
    SelfFinal(s.pool);
    if PickFrom(s.pool, 0).Some? { PickedFinal(s.pool); }
    if e.Pick? {
      if Idle?(s, e.c) { assert Step(s, e) == StepPick(s, e.c); }
    } else if At?(s, e.c, Dying) {
      assert Step(s, e) == StepSwitch(s, e.c);
    }
  }

  lemma CreateFinal(p: Pool, pid: int, parent: int)
    requires CanCreate(p, pid) && |p.table| == |p.tableSeq|
    ensures Final(p, CreateAt(p, FirstFree(p.T), pid, parent))
  {
  }

  /** No event changes the end of a terminated process. */
  lemma StepFinal(s: Sys, e: Event)
    requires WellShaped(s) && Step(s, e).Some?
    ensures Final(s.pool, Step(s, e).value.pool)
  {
    hide Final, Ref, Unref, SchedAdd, SchedRemove, Reparent, SetState, SetReaped, PickFrom, CreateAt, FirstFree,
        StepPick, StepSwitch;
    SelfFinal(s.pool);
    if e.Pick? || e.Switch? {
      PickFinal(s, e);
    } else if e.c < |s.ctxs| {
      assert InRange(s.ctxs[e.c], |s.pool.T|);
      if !s.ctxs[e.c].Idle? {
        OpsFinal(s.pool, s.ctxs[e.c].i);
        ExitFinal(s.pool, s.ctxs[e.c].i);
      } else if e.Lookup? || e.LookupSeq? || e.HaltClaim? {
        var i := if e.LookupSeq? then PublishedSeq(s.pool, e.pid, e.q) else Published(s.pool, e.pid);
        if i >= 0 { OpsFinal(s.pool, i); }
      } else if Creates(s, e) {
        CreateFinal(s.pool, e.pid, e.parent);
      }
    }
  }

  lemma SelfFinal(p: Pool)
    ensures Final(p, p)
  {
  }

  /** In every continuation of a run, a finished incarnation is still finished for as long as it lives. */
  lemma {:induction false} TerminationIsFinal(n: nat, maxp: nat, maxPid: nat, evs: seq<Event>, later: seq<Event>,
                                              i: nat, q: int)
    requires AllConsiderate(Boot(n, maxp, maxPid), evs + later)
    requires var r := Exec(Boot(n, maxp, maxPid), evs); r.Some? ==> Finished(r.value.pool, i, q)
    ensures Exec(Boot(n, maxp, maxPid), evs + later).Some?
    ensures var p := Exec(Boot(n, maxp, maxPid), evs + later).value.pool;
            q <= p.gSeq && (Here(p, i, q) ==> Finished(p, i, q))
    decreases |later|
  {
    hide Step, Inv;
    var b := Boot(n, maxp, maxPid);
    Safety(n, maxp, maxPid, evs + later);
    if later == [] {
      assert evs + later == evs;
      LiveSeqBound(Exec(b, evs).value, i);
    } else {
      assert Front(evs + later) == evs + Front(later) && Last(evs + later) == Last(later);
      TerminationIsFinal(n, maxp, maxPid, evs, Front(later), i, q);
      Safety(n, maxp, maxPid, evs + Front(later));
      var s := Exec(b, evs + Front(later)).value;
      Evolves(s, Last(later));
      StepFinal(s, Last(later));
    }
  }

  lemma LiveSeqBound(s: Sys, i: nat)
    requires Inv(s, 0, 0) && i < |s.pool.T| && s.pool.T[i].alive
    ensures s.pool.T[i].createSeq <= s.pool.gSeq
  {
    assert PublishedAs(s.pool, i);
  }
}
