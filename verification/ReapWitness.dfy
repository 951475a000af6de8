/** Two schedules of one process and two contexts, event by event: what goes wrong when a claim is not
    considerate, and when it is not patient. */
module ReapWitness {
  import opened Common
  import opened ProcessPool
  import opened ReapProtocol
  import opened ReapTheorems
  import opened ReapLimits

  /** One block, one PID, two contexts: the process is incarnation 1 in slot 0. */
  function Tiny(p: Proc, x0: Ctx, x1: Ctx, l: Creation): Sys {
    Sys(Pool([p], [0], [1], 1, 0, 1), [x0, x1], [l])
  }

  function TinyProc(refs: int, reaped: bool, queued: bool, st: PState): Proc {
    Proc(0, refs, reaped, queued, st, true, 9, 1)
  }

  lemma TinyUpd(p: Proc, p': Proc, x0: Ctx, x1: Ctx, z: Ctx, l: Creation, l': Creation)
    ensures [p][0 := p'] == [p'] && [l][0 := l'] == [l']
    ensures [x0, x1][0 := z] == [z, x1] && [x0, x1][1 := z] == [x0, z]
  {
  }

  function Born(): Sys { Tiny(TinyProc(1, false, false, Ready), At(Creating, 0, 1), Idle, Fresh) }

  lemma TinyBirth()
    ensures WellShaped(Boot(2, 1, 1)) && Step(Boot(2, 1, 1), Create(0, 0, 9)) == Some(Born())
  {
    var b := Boot(2, 1, 1);
    assert b.pool.T == [ZeroProc()] && b.pool.table == [-1] && b.pool.tableSeq == [-1];
    assert b.ctxs == [Idle, Idle] && b.ledger == [Dropped];
    assert FirstFree(b.pool.T) == 0;
    TinyUpd(ZeroProc(), TinyProc(1, false, false, Ready), Idle, Idle, At(Creating, 0, 1), Dropped, Fresh);
    assert [-1][0 := 0] == [0] && [-1][0 := 1] == [1];
  }

  lemma TinyCommit()
    ensures Step(Born(), Commit(0)) == Some(Tiny(TinyProc(2, false, true, Ready), Idle, Idle, Committed))
  {
    TinyUpd(TinyProc(1, false, false, Ready), TinyProc(2, false, false, Ready),
            At(Creating, 0, 1), Idle, Idle, Fresh, Committed);
    TinyUpd(TinyProc(2, false, false, Ready), TinyProc(2, false, true, Ready), Idle, Idle, Idle, Fresh, Fresh);
  }

  lemma TinyPick()
    ensures Step(Tiny(TinyProc(2, false, true, Ready), Idle, Idle, Committed), Pick(0))
            == Some(Tiny(TinyProc(2, false, false, Running), At(OnCpu, 0, 1), Idle, Committed))
  {
    var s := Tiny(TinyProc(2, false, true, Ready), Idle, Idle, Committed);
    TinyUpd(TinyProc(2, false, true, Ready), TinyProc(2, false, false, Ready),
            Idle, Idle, At(OnCpu, 0, 1), Fresh, Fresh);
    TinyUpd(TinyProc(2, false, false, Ready), TinyProc(2, false, false, Running), Idle, Idle, Idle, Fresh, Fresh);
    assert PickFrom(s.pool, 0) == Some((SetQueued(s.pool, 0, false), 0));
    assert Step(s, Pick(0)) == StepPick(s, 0);
  }

  lemma TinyExit()
    ensures Step(Tiny(TinyProc(2, false, false, Running), At(OnCpu, 0, 1), Idle, Committed), Exit(0))
            == Some(Tiny(TinyProc(2, false, false, Terminated), At(Exiting, 0, 1), Idle, Committed))
  {
    var s := Tiny(TinyProc(2, false, false, Running), At(OnCpu, 0, 1), Idle, Committed);
    assert Reparent(s.pool, 0).T == s.pool.T;
    TinyUpd(TinyProc(2, false, false, Running), TinyProc(2, false, false, Terminated),
            At(OnCpu, 0, 1), Idle, At(Exiting, 0, 1), Fresh, Fresh);
  }

  lemma TinyLookup(refs: nat, st: PState, x: Ctx, l: Creation)
    requires refs > 0 && InRange(x, 1)
    ensures Step(Tiny(TinyProc(refs, false, false, st), x, Idle, l), Lookup(1, 0))
            == Some(Tiny(TinyProc(refs + 1, false, false, st), x, At(Looking, 0, 1), l))
  {
    TinyUpd(TinyProc(refs, false, false, st), TinyProc(refs + 1, false, false, st), x, Idle, At(Looking, 0, 1), l, l);
  }

  lemma TinyKill(x: Ctx, l: Creation)
    requires InRange(x, 1)
    ensures Step(Tiny(TinyProc(2, false, false, Ready), x, At(Looking, 0, 1), l), Kill(1))
            == Some(Tiny(TinyProc(2, false, false, Terminated), x, At(Looking, 0, 1), l))
  {
    TinyUpd(TinyProc(2, false, false, Ready), TinyProc(2, false, false, Terminated), x, Idle, Idle, l, l);
  }

  lemma TinyShaped(p: Proc, x0: Ctx, x1: Ctx, l: Creation)
    requires InRange(x0, 1) && InRange(x1, 1)
    ensures WellShaped(Tiny(p, x0, x1, l))
  {
  }

  lemma TinyClaim(x: Ctx, l: Creation)
    requires InRange(x, 1)
    ensures Step(Tiny(TinyProc(2, false, false, Terminated), x, At(Looking, 0, 1), l), Claim(1))
            == Some(Tiny(TinyProc(2, true, false, Terminated), x, At(Won, 0, 1), Claimed))
  {
    TinyUpd(TinyProc(2, false, false, Terminated), TinyProc(2, true, false, Terminated),
            x, At(Looking, 0, 1), At(Won, 0, 1), l, Claimed);
  }

  lemma TinyDrop(x: Ctx)
    requires InRange(x, 1)
    ensures Step(Tiny(TinyProc(2, true, false, Terminated), x, At(Won, 0, 1), Claimed), DropCreation(1))
            == Some(Tiny(TinyProc(1, true, false, Terminated), x, At(Settled, 0, 1), Dropped))
  {
    TinyUpd(TinyProc(2, true, false, Terminated), TinyProc(1, true, false, Terminated),
            x, At(Won, 0, 1), At(Settled, 0, 1), Claimed, Dropped);
  }

  lemma TinyUnlink(x: Ctx)
    requires InRange(x, 1)
    ensures Step(Tiny(TinyProc(1, true, false, Terminated), x, At(Settled, 0, 1), Dropped), Unlink(1))
            == Some(Tiny(TinyProc(1, true, false, Terminated), x, At(Removed, 0, 1), Dropped))
  {
    TinyUpd(ZeroProc(), ZeroProc(), x, At(Settled, 0, 1), At(Removed, 0, 1), Dropped, Dropped);
  }

  /** The reaper's last drop frees the block its creator still means. */
  lemma TinyFree(s: Sys)
    requires s == LastHold()
    ensures Step(s, DropLookup(1)).Some? && WellShaped(Step(s, DropLookup(1)).value)
    ensures var t := Step(s, DropLookup(1)).value; Step(t, Commit(0)).None? && Step(t, Abandon(0)).None?
  {
  }

  /** A process is killed and reaped between its creation and its fork's end: whichever way the fork then
      ends, it touches a freed block. */
  lemma KilledForkTrips()
    ensures var evs := [Create(0, 0, 9), Lookup(1, 0), Kill(1), Claim(1), DropCreation(1), Unlink(1), DropLookup(1)];
      && Exec(Boot(2, 1, 1), evs).Some?
      && Exec(Boot(2, 1, 1), evs + [Commit(0)]).None? && Exec(Boot(2, 1, 1), evs + [Abandon(0)]).None?
  {
    var b := Boot(2, 1, 1);
    TinyBirth();
    TinyFree(LastHold());
    hide Step, Exec, Boot, WellShaped, LastHold;
    var killed := KilledEarly(b);
    var evs := ReapedEarly(b, killed);
    assert evs == [Create(0, 0, 9), Lookup(1, 0), Kill(1), Claim(1), DropCreation(1), Unlink(1), DropLookup(1)];
    ExecSnoc(b, evs, Commit(0), Step(LastHold(), DropLookup(1)).value);
    ExecSnoc(b, evs, Abandon(0), Step(LastHold(), DropLookup(1)).value);
  }

  function LastHold(): Sys {
    Tiny(TinyProc(1, true, false, Terminated), At(Creating, 0, 1), At(Removed, 0, 1), Dropped)
  }

  lemma KilledEarly(b: Sys) returns (evs: seq<Event>)
    requires WellShaped(b) && Step(b, Create(0, 0, 9)) == Some(Born())
    ensures evs == [Create(0, 0, 9), Lookup(1, 0), Kill(1)]
    ensures Exec(b, evs) == Some(Tiny(TinyProc(2, false, false, Terminated), At(Creating, 0, 1), At(Looking, 0, 1),
        Fresh))
  {
    var x := At(Creating, 0, 1);
    TinyLookup(1, Ready, x, Fresh);
    TinyKill(x, Fresh);
    TinyShaped(TinyProc(1, false, false, Ready), x, Idle, Fresh);
    TinyShaped(TinyProc(2, false, false, Ready), x, At(Looking, 0, 1), Fresh);
    hide Step, Exec, WellShaped;
    ExecOne(b, Create(0, 0, 9));
    evs := [Create(0, 0, 9)];
    ExecSnoc(b, evs, Lookup(1, 0), Born());
    evs := evs + [Lookup(1, 0)];
    ExecSnoc(b, evs, Kill(1), Tiny(TinyProc(2, false, false, Ready), x, At(Looking, 0, 1), Fresh));
    evs := evs + [Kill(1)];
  }

  lemma ReapedEarly(b: Sys, pre: seq<Event>) returns (evs: seq<Event>)
    requires Exec(b, pre) == Some(Tiny(TinyProc(2, false, false, Terminated), At(Creating, 0, 1), At(Looking, 0, 1),
        Fresh))
    ensures evs == pre + [Claim(1)] + [DropCreation(1)] + [Unlink(1)] + [DropLookup(1)]
    ensures Exec(b, evs) == Step(LastHold(), DropLookup(1))
  {
    var x := At(Creating, 0, 1);
    TinyClaim(x, Fresh);
    TinyDrop(x);
    TinyUnlink(x);
    TinyShaped(TinyProc(2, false, false, Terminated), x, At(Looking, 0, 1), Fresh);
    TinyShaped(TinyProc(2, true, false, Terminated), x, At(Won, 0, 1), Claimed);
    TinyShaped(TinyProc(1, true, false, Terminated), x, At(Settled, 0, 1), Dropped);
    TinyShaped(TinyProc(1, true, false, Terminated), x, At(Removed, 0, 1), Dropped);
    hide Step, Exec, WellShaped;
    evs := pre;
    ExecSnoc(b, evs, Claim(1), Tiny(TinyProc(2, false, false, Terminated), x, At(Looking, 0, 1), Fresh));
    evs := evs + [Claim(1)];
    ExecSnoc(b, evs, DropCreation(1), Tiny(TinyProc(2, true, false, Terminated), x, At(Won, 0, 1), Claimed));
    evs := evs + [DropCreation(1)];
    ExecSnoc(b, evs, Unlink(1), Tiny(TinyProc(1, true, false, Terminated), x, At(Settled, 0, 1), Dropped));
    evs := evs + [Unlink(1)];
    ExecSnoc(b, evs, DropLookup(1), LastHold());
    evs := evs + [DropLookup(1)];
  }

  /** A reaper looks up a process that is still on its way off the CPU. */
  lemma ExitWatched(b: Sys) returns (evs: seq<Event>)
    requires WellShaped(b) && Step(b, Create(0, 0, 9)) == Some(Born())
    ensures Exec(b, evs) == Some(Tiny(TinyProc(3, false, false, Terminated), At(Exiting, 0, 1), At(Looking, 0, 1),
        Committed))
    ensures Baseline(evs)
  {
    TinyCommit();
    TinyPick();
    TinyExit();
    TinyLookup(2, Terminated, At(Exiting, 0, 1), Committed);
    TinyShaped(TinyProc(1, false, false, Ready), At(Creating, 0, 1), Idle, Fresh);
    TinyShaped(TinyProc(2, false, true, Ready), Idle, Idle, Committed);
    TinyShaped(TinyProc(2, false, false, Running), At(OnCpu, 0, 1), Idle, Committed);
    TinyShaped(TinyProc(2, false, false, Terminated), At(Exiting, 0, 1), Idle, Committed);
    hide Step, Exec, WellShaped;
    ExecOne(b, Create(0, 0, 9));
    evs := [Create(0, 0, 9)];
    ExecSnoc(b, evs, Commit(0), Born());
    evs := evs + [Commit(0)];
    ExecSnoc(b, evs, Pick(0), Tiny(TinyProc(2, false, true, Ready), Idle, Idle, Committed));
    evs := evs + [Pick(0)];
    ExecSnoc(b, evs, Exit(0), Tiny(TinyProc(2, false, false, Running), At(OnCpu, 0, 1), Idle, Committed));
    evs := evs + [Exit(0)];
    ExecSnoc(b, evs, Lookup(1, 0), Tiny(TinyProc(2, false, false, Terminated), At(Exiting, 0, 1), Idle, Committed));
    evs := evs + [Lookup(1, 0)];
  }

  /** There is a considerate schedule in which the exiting context's own unref frees its block. */
  lemma ImpatientSelfFrees()
    ensures exists evs, e :: Exec(Boot(2, 1, 1), evs).Some? && SelfFrees(Exec(Boot(2, 1, 1), evs).value, e, 0, 0)
  {
    TinyBirth();
    var b := Boot(2, 1, 1);
    var evs := ExitWatched(b);
    BaselineConsiderate(b, [], evs);
    assert [] + evs == evs;
    hide Step, Exec;
    var later, e := ImpatientFrees(2, 1, 1, evs, 1, 0);
    assert SelfFrees(Exec(b, evs + ([Claim(1)] + later)).value, e, 0, 0);
  }
}
