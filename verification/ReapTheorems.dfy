/** What every run of the reap protocol guarantees. */
module ReapTheorems {
  import opened Common
  import opened ProcessPool
  import opened ReapProtocol

  /** n contexts over an empty pool of maxp blocks and maxPid PIDs. */
  ghost function Boot(n: nat, maxp: nat, maxPid: nat): Sys {
    Sys(Empty(maxp, maxPid), seq(n, _ => Idle), seq(maxp, _ => Dropped))
  }

  /** Run a schedule; None when some event trips an assert or touches a freed block. */
  ghost function Exec(s0: Sys, evs: seq<Event>): (r: Option<Sys>)
    decreases |evs|
  {
    if evs == [] then Some(s0)
    else match Exec(s0, Front(evs))
      case None => None
      case Some(s) => if WellShaped(s) then Step(s, Last(evs)) else None
  }

  function Front(evs: seq<Event>): seq<Event>
    requires evs != []
  {
    evs[..|evs| - 1]
  }

  function Last(evs: seq<Event>): Event
    requires evs != []
  {
    evs[|evs| - 1]
  }

  /** Every claim of the schedule spares processes that are still with their creator. */
  ghost predicate AllConsiderate(s0: Sys, evs: seq<Event>)
    decreases |evs|
  {
    evs == [] ||
    (AllConsiderate(s0, Front(evs)) &&
     var r := Exec(s0, Front(evs)); r.Some? && WellShaped(r.value) ==> Considerate(r.value, Last(evs)))
  }

  lemma BootInv(n: nat, maxp: nat, maxPid: nat)
    ensures Inv(Boot(n, maxp, maxPid), 0, 0)
  {
    var s := Boot(n, maxp, maxPid);
    forall j: nat ensures SumHeld(s.ctxs, j) == 0 == SumOwns(s.ctxs, j) {
      IdleSums(n, j);
    }
    AliveCountZero(s.pool.T);
  }

  lemma {:induction false} IdleSums(n: nat, j: nat)
    ensures SumHeld(seq(n, _ => Idle), j) == 0 == SumOwns(seq(n, _ => Idle), j)
  {
    if n > 0 {
      IdleSums(n - 1, j);
      assert seq<Ctx>(n, _ => Idle)[1..] == seq<Ctx>(n - 1, _ => Idle);
    }
  }

  /** No schedule of any number of contexts whose claims are considerate ever trips an assert. */
  lemma {:induction false} Safety(n: nat, maxp: nat, maxPid: nat, evs: seq<Event>)
    requires AllConsiderate(Boot(n, maxp, maxPid), evs)
    ensures Exec(Boot(n, maxp, maxPid), evs).Some?
    ensures var s := Exec(Boot(n, maxp, maxPid), evs).value; Inv(s, 0, 0) && WellShaped(s)
    decreases |evs|
  {
    if evs == [] {
      BootInv(n, maxp, maxPid);
      InvShape(Boot(n, maxp, maxPid), 0, 0);
    } else {
      Safety(n, maxp, maxPid, Front(evs));
      StepKept(Exec(Boot(n, maxp, maxPid), Front(evs)).value, Last(evs));
    }
  }

  /** In every reachable state each count is exactly the references outstanding, a block is
      live exactly while something is outstanding, and at most one context owns the
      creation reference. */
  lemma ExactCounts(n: nat, maxp: nat, maxPid: nat, evs: seq<Event>, j: nat)
    requires AllConsiderate(Boot(n, maxp, maxPid), evs)
    requires j < maxp
    ensures Exec(Boot(n, maxp, maxPid), evs).Some?
    ensures var s := Exec(Boot(n, maxp, maxPid), evs).value;
            && |s.pool.T| == |s.ledger| == maxp
            && s.pool.T[j].refCount == Owed(s, j) >= 0
            && (s.pool.T[j].alive <==> Owed(s, j) > 0)
            && SumOwns(s.ctxs, j) <= 1
  {
    Safety(n, maxp, maxPid, evs);
    Sizes(n, maxp, maxPid, evs);
  }

  lemma {:induction false} Sizes(n: nat, maxp: nat, maxPid: nat, evs: seq<Event>)
    requires AllConsiderate(Boot(n, maxp, maxPid), evs)
    ensures Exec(Boot(n, maxp, maxPid), evs).Some?
    ensures var s := Exec(Boot(n, maxp, maxPid), evs).value;
            |s.pool.T| == maxp && |s.pool.table| == maxPid && |s.ctxs| == n
    decreases |evs|
  {
    hide Step, Inv;
    Safety(n, maxp, maxPid, evs);
    if evs != [] {
      Sizes(n, maxp, maxPid, Front(evs));
      Safety(n, maxp, maxPid, Front(evs));
      Evolves(Exec(Boot(n, maxp, maxPid), Front(evs)).value, Last(evs));
    }
  }

  // ---------------------------------------------------------------- one step, one incarnation

  /** Slots keep their incarnation or die. */
  ghost predicate Wanes(p: Pool, p': Pool) {
    && |p'.T| == |p.T| && |p'.table| == |p.table| && p'.gSeq == p.gSeq
    && forall j :: 0 <= j < |p.T| ==> p'.T[j].createSeq == p.T[j].createSeq && (p'.T[j].alive ==> p.T[j].alive)
  }

  lemma {:induction false} PickWanes(p: Pool, from: nat)
    requires |p.table| == |p.tableSeq|
    ensures PickFrom(p, from).Some? ==> Wanes(p, PickFrom(p, from).value.0)
    decreases |p.T| - from
  {
    if from < |p.T| {
      if !(p.T[from].alive && p.T[from].onQueue) {
        PickWanes(p, from + 1);
      } else if p.T[from].state == Terminated {
        var r := Unref(SetQueued(p, from, false), from);
        if r.Some? {
          PickWanes(r.value, from + 1);
        }
      }
    }
  }

  lemma PickedWanes(p: Pool)
    requires |p.table| == |p.tableSeq|
    ensures var r := PickFrom(p, 0);
            r.Some? ==> && -1 <= r.value.1 < |r.value.0.T|
                        && Wanes(p, r.value.0)
                        && (r.value.1 >= 0 ==> Wanes(p, SetState(r.value.0, r.value.1, Running)))
  {
    PickShape(p, 0);
    PickWanes(p, 0);
  }

  predicate Creates(s: Sys, e: Event) {
    e.Create? && e.c < |s.ctxs| && s.ctxs[e.c].Idle? && CanCreate(s.pool, e.pid)
  }

  /** Event e drops the creation reference of slot j. */
  predicate DropsAt(s: Sys, e: Event, j: nat) {
    && e.c < |s.ctxs| && s.ctxs[e.c].At? && s.ctxs[e.c].i == j
    && match e
       case Cleanup(c) => s.ctxs[c].pc.Cleaning?
       case DropCreation(c) => s.ctxs[c].pc.Won?
       case HaltDrop(c) => s.ctxs[c].pc.HaltWon?
       case _ => false
  }

  /** Claims, commits and drops rewrite one ledger entry; every other event but a create none. */
  lemma LedgerKept(s: Sys, e: Event)
    requires WellShaped(s) && Step(s, e).Some?
    requires !e.Create? && !e.Commit? && !e.Cleanup? && !e.DropCreation? && !e.HaltDrop? && !e.Claim? && !e.HaltClaim?
    ensures var s' := Step(s, e).value; s'.ledger == s.ledger && |s'.ctxs| == |s.ctxs|
  {
    hide Ref, Unref, SchedAdd, SchedRemove, Reparent, SetState, SetReaped, PickFrom, CreateAt;
  }

  lemma LedgerClaim(s: Sys, e: Event)
    requires Inv(s, 0, 0) && WellShaped(s) && Considerate(s, e) && Step(s, e).Some? && (e.Claim? || e.HaltClaim?)
    ensures var s' := Step(s, e).value; |s'.ledger| == |s.ledger| && |s'.ctxs| == |s.ctxs|
    ensures forall j :: 0 <= j < |s.ledger| ==>
      (Step(s, e).value.ledger[j] == Dropped <==> s.ledger[j] == Dropped)
  {
    if e.Claim? && At?(s, e.c, Looking) { SlotFact(s, s.ctxs[e.c].i); }
    if e.HaltClaim? && Published(s.pool, e.pid) >= 0 {
      PublishedAlive(s, e.pid, 0);
      SlotFact(s, Published(s.pool, e.pid));
    }
    hide Inv, SetReaped;
  }

  lemma LedgerMoves(s: Sys, e: Event)
    requires WellShaped(s) && Step(s, e).Some?
    requires e.c < |s.ctxs| ==> CtxOk(s, s.ctxs[e.c])
    requires e.Create? || e.Commit? || e.Cleanup? || e.DropCreation? || e.HaltDrop?
    ensures var s' := Step(s, e).value; |s'.ledger| == |s.ledger| && |s'.ctxs| == |s.ctxs|
    ensures Creates(s, e) ==> Step(s, e).value.ledger == s.ledger[FirstFree(s.pool.T) := Fresh]
    ensures !Creates(s, e) ==> forall j :: 0 <= j < |s.ledger| ==>
      (Step(s, e).value.ledger[j] == Dropped <==> s.ledger[j] == Dropped || DropsAt(s, e, j))
  {
    hide Ref, Unref, SchedAdd, SchedRemove, Reparent, SetState, SetReaped, PickFrom, CreateAt;
  }

  /** The creation reference of a slot goes exactly at its drop. */
  lemma EvolvesLedger(s: Sys, e: Event)
    requires Inv(s, 0, 0) && WellShaped(s) && Considerate(s, e) && Step(s, e).Some?
    ensures var s' := Step(s, e).value;
            && |s'.ledger| == |s.ledger| && |s'.ctxs| == |s.ctxs|
            && (Creates(s, e) ==> s'.ledger == s.ledger[FirstFree(s.pool.T) := Fresh])
            && (!Creates(s, e) ==> forall j :: 0 <= j < |s.ledger| ==>
                  (s'.ledger[j] == Dropped <==> s.ledger[j] == Dropped || DropsAt(s, e, j)))
  {
    hide Step, Inv;
    if e.Claim? || e.HaltClaim? {
      LedgerClaim(s, e);
    } else if e.Create? || e.Commit? || e.Cleanup? || e.DropCreation? || e.HaltDrop? {
      if e.c < |s.ctxs| { CtxFact(s, e.c); }
      LedgerMoves(s, e);
    } else {
      LedgerKept(s, e);
    }
  }

  lemma OpsWane(p: Pool, i: nat)
    requires i < |p.T| && |p.table| == |p.tableSeq|
    ensures Unref(p, i).Some? ==> Wanes(p, Unref(p, i).value)
    ensures Ref(p, i).Some? ==> Wanes(p, Ref(p, i).value)
    ensures SchedAdd(p, i).Some? ==> Wanes(p, SchedAdd(p, i).value)
    ensures SchedRemove(p, i).Some? ==> Wanes(p, SchedRemove(p, i).value)
    ensures Wanes(p, SetReaped(p, i)) && forall st :: Wanes(p, SetState(p, i, st))
  {
  }

  lemma ExitWanes(p: Pool, i: nat)
    requires i < |p.T|
    ensures Wanes(p, SetState(Reparent(p, p.T[i].pid), i, Terminated))
  {
  }

  lemma EvolvesPick(s: Sys, e: Event)
    requires WellShaped(s) && Step(s, e).Some? && (e.Pick? || e.Switch?)
    ensures Wanes(s.pool, Step(s, e).value.pool)
  {
    PickedWanes(s.pool);
    if e.Pick? {
      if Idle?(s, e.c) { assert Step(s, e) == StepPick(s, e.c); }
    } else if At?(s, e.c, Dying) {
      assert Step(s, e) == StepSwitch(s, e.c);
    }
  }

  lemma EvolvesPool(s: Sys, e: Event)
    requires WellShaped(s) && Step(s, e).Some?
    ensures var s' := Step(s, e).value;
            && (!Creates(s, e) ==> Wanes(s.pool, s'.pool))
            && (Creates(s, e) ==> s'.pool == CreateAt(s.pool, FirstFree(s.pool.T), e.pid, e.parent))
  {
    hide Wanes, Ref, Unref, SchedAdd, SchedRemove, Reparent, SetState, SetReaped, PickFrom, CreateAt, FirstFree,
        StepPick, StepSwitch;
    WanesSelf(s.pool);
    if e.Pick? || e.Switch? {
      EvolvesPick(s, e);
    } else if e.c < |s.ctxs| {
      assert InRange(s.ctxs[e.c], |s.pool.T|);
      if !s.ctxs[e.c].Idle? {
        OpsWane(s.pool, s.ctxs[e.c].i);
        ExitWanes(s.pool, s.ctxs[e.c].i);
      } else if e.Lookup? || e.LookupSeq? || e.HaltClaim? {
        var i := if e.LookupSeq? then PublishedSeq(s.pool, e.pid, e.q) else Published(s.pool, e.pid);
        if i >= 0 { OpsWane(s.pool, i); }
      }
    }
  }

  lemma WanesSelf(p: Pool)
    ensures Wanes(p, p)
  {
  }

  /** One event: a new incarnation appears only at a create, the others live on or die, and a
      creation reference goes exactly at its drop. */
  lemma Evolves(s: Sys, e: Event)
    requires Inv(s, 0, 0) && WellShaped(s) && Considerate(s, e) && Step(s, e).Some?
    ensures var s' := Step(s, e).value;
            && |s'.ledger| == |s.ledger| == |s.pool.T| && |s'.ctxs| == |s.ctxs|
            && (!Creates(s, e) ==> Wanes(s.pool, s'.pool))
            && (Creates(s, e) ==> s'.pool == CreateAt(s.pool, FirstFree(s.pool.T), e.pid, e.parent)
                                  && s'.ledger == s.ledger[FirstFree(s.pool.T) := Fresh])
            && (!Creates(s, e) ==> forall j :: 0 <= j < |s.ledger| ==>
                  (s'.ledger[j] == Dropped <==> s.ledger[j] == Dropped || DropsAt(s, e, j)))
  {
    EvolvesPool(s, e);
    EvolvesLedger(s, e);
  }

  // ---------------------------------------------------------------- once per incarnation

  /** Incarnation q occupies a live block. */
  ghost predicate Lives(p: Pool, q: int) {
    exists i: nat :: Here(p, i, q)
  }

  ghost predicate DropsOf(s: Sys, e: Event, q: int) {
    exists j: nat :: Here(s.pool, j, q) && DropsAt(s, e, j)
  }

  /** How often the schedule dropped the creation reference of incarnation q. */
  ghost function Drops(s0: Sys, evs: seq<Event>, q: int): nat
    decreases |evs|
  {
    if evs == [] || Exec(s0, Front(evs)).None? then 0
    else
      var s := Exec(s0, Front(evs)).value;
      var e := Last(evs);
      Drops(s0, Front(evs), q)
      + (if DropsOf(s, e, q) then 1 else 0)
  }

  /** How often the schedule tore incarnation q down. */
  ghost function Frees(s0: Sys, evs: seq<Event>, q: int): nat
    decreases |evs|
  {
    if evs == [] || Exec(s0, Front(evs)).None? || Exec(s0, evs).None? then 0
    else
      Frees(s0, Front(evs), q)
      + (if Lives(Exec(s0, Front(evs)).value.pool, q) && !Lives(Exec(s0, evs).value.pool, q) then 1 else 0)
  }

  /** The history an incarnation must have, given the present state. */
  ghost predicate Accounted(s: Sys, q: int, drops: nat, frees: nat)
    requires |s.pool.T| == |s.ledger|
  {
    && (!(1 <= q <= s.pool.gSeq) ==> drops == 0 && frees == 0 && !Lives(s.pool, q))
    && (1 <= q <= s.pool.gSeq ==> frees == (if Lives(s.pool, q) then 0 else 1))
    && (1 <= q <= s.pool.gSeq && !Lives(s.pool, q) ==> drops == 1)
    && (forall i: nat :: Here(s.pool, i, q) ==> drops == (if s.ledger[i] == Dropped then 1 else 0))
  }

  /** One event carries the history of incarnation q on. */
  lemma AccountStep(s: Sys, e: Event, q: int, drops: nat, frees: nat)
    requires Inv(s, 0, 0) && WellShaped(s) && Considerate(s, e) && Accounted(s, q, drops, frees)
    requires Step(s, e).Some? && Inv(Step(s, e).value, 0, 0)
    ensures var s' := Step(s, e).value;
            Accounted(s', q, drops + (if DropsOf(s, e, q) then 1 else 0),
                      frees + (if Lives(s.pool, q) && !Lives(s'.pool, q) then 1 else 0))
  {
    var s' := Step(s, e).value;
    Evolves(s, e);
    if Creates(s, e) {
      AccountCreate(s, s', FirstFree(s.pool.T), e, q, drops, frees);
    } else {
      forall j | 0 <= j < |s.pool.T| && !s'.pool.T[j].alive ensures s'.ledger[j] == Dropped {
        assert Owed(s', j) == 0;
      }
      forall j | 0 <= j < |s.pool.T| && s.pool.T[j].alive ensures 1 <= s.pool.T[j].createSeq <= s.pool.gSeq {
        assert PublishedAs(s.pool, j);
      }
      if DropsOf(s, e, q) { DropsHeld(s, e, q); }
      AccountWane(s, s', e, q, drops, frees);
    }
  }

  /** Only a reference that is still there gets dropped. */
  lemma DropsHeld(s: Sys, e: Event, q: int)
    requires |s.pool.T| == |s.ledger| && CtxsOk(s) && DropsOf(s, e, q)
    ensures forall j: nat :: Here(s.pool, j, q) && DropsAt(s, e, j) ==> s.ledger[j] != Dropped
  {
    assert CtxOk(s, s.ctxs[e.c]);
  }

  lemma AccountWane(s: Sys, s': Sys, e: Event, q: int, drops: nat, frees: nat)
    requires |s.pool.T| == |s.ledger| == |s'.ledger| && Wanes(s.pool, s'.pool) && UniqueSeqs(s.pool)
    requires Accounted(s, q, drops, frees)
    requires forall j :: 0 <= j < |s.pool.T| && s.pool.T[j].alive ==> 1 <= s.pool.T[j].createSeq <= s.pool.gSeq
    requires forall j :: 0 <= j < |s.ledger| ==> (s'.ledger[j] == Dropped
        <==> s.ledger[j] == Dropped || DropsAt(s, e, j))
    requires forall j :: 0 <= j < |s.ledger| && !s'.pool.T[j].alive ==> s'.ledger[j] == Dropped
    requires forall j: nat :: Here(s.pool, j, q) && DropsAt(s, e, j) ==> s.ledger[j] != Dropped
    ensures Accounted(s', q, drops + (if DropsOf(s, e, q) then 1 else 0),
                      frees + (if Lives(s.pool, q) && !Lives(s'.pool, q) then 1 else 0))
  {
    assert forall i: nat :: Here(s'.pool, i, q) ==> Here(s.pool, i, q);
    if i: nat :| Here(s.pool, i, q) {
      OneHome(s.pool, i, q);
      assert DropsOf(s, e, q) <==> DropsAt(s, e, i);
      if s'.pool.T[i].alive {
        assert Here(s'.pool, i, q);
      } else {
        assert s'.ledger[i] == Dropped && !Lives(s'.pool, q);
      }
    }
  }

  lemma OneHome(p: Pool, i: nat, q: int)
    requires UniqueSeqs(p) && Here(p, i, q)
    ensures forall j: nat :: Here(p, j, q) ==> j == i
  {
  }

  lemma AccountCreate(s: Sys, s': Sys, f: nat, e: Event, q: int, drops: nat, frees: nat)
    requires Inv(s, 0, 0) && Accounted(s, q, drops, frees)
    requires Creates(s, e) && f < |s.pool.T| && !s.pool.T[f].alive
    requires |s.pool.table| == |s.pool.tableSeq| && s'.pool == CreateAt(s.pool, f, e.pid, e.parent)
    requires s'.ledger == s.ledger[f := Fresh]
    ensures !DropsOf(s, e, q)
    ensures Accounted(s', q, drops, frees + (if Lives(s.pool, q) && !Lives(s'.pool, q) then 1 else 0))
  {
    forall j: nat | Here(s.pool, j, q) ensures Here(s'.pool, j, q) && 1 <= q <= s.pool.gSeq {
      assert PublishedAs(s.pool, j);
    }
    assert forall j: nat :: j != f && Here(s'.pool, j, q) ==> Here(s.pool, j, q);
    if q == s.pool.gSeq + 1 {
      assert Here(s'.pool, f, q);
    }
  }

  /** Whatever the race: every incarnation's creation reference is dropped at most once, it is
      torn down at most once, and a torn-down incarnation has seen exactly one of each. */
  lemma {:induction false} OncePerIncarnation(n: nat, maxp: nat, maxPid: nat, evs: seq<Event>, q: int)
    requires AllConsiderate(Boot(n, maxp, maxPid), evs)
    ensures Exec(Boot(n, maxp, maxPid), evs).Some?
    ensures var b := Boot(n, maxp, maxPid);
            var s := Exec(b, evs).value;
            |s.pool.T| == |s.ledger| && Accounted(s, q, Drops(b, evs, q), Frees(b, evs, q))
    decreases |evs|
  {
    hide Step, Inv;
    var b := Boot(n, maxp, maxPid);
    Safety(n, maxp, maxPid, evs);
    if evs != [] {
      OncePerIncarnation(n, maxp, maxPid, Front(evs), q);
      Safety(n, maxp, maxPid, Front(evs));
      AccountStep(Exec(b, Front(evs)).value, Last(evs), q, Drops(b, Front(evs), q), Frees(b, Front(evs), q));
    }
  }

  // ---------------------------------------------------------------- nothing leaks

  /** Every reference has been given back. */
  ghost predicate Quiet(s: Sys) {
    && (forall c :: 0 <= c < |s.ctxs| ==> s.ctxs[c].Idle?)
    && (forall j :: 0 <= j < |s.ledger| ==> s.ledger[j] == Dropped)
    && (forall j :: 0 <= j < |s.pool.T| ==> !s.pool.T[j].onQueue)
  }

  /** When all references have been released, as many processes were freed as created, no
      block is live and no PID is published. */
  lemma NoLeak(n: nat, maxp: nat, maxPid: nat, evs: seq<Event>)
    requires AllConsiderate(Boot(n, maxp, maxPid), evs)
    requires Exec(Boot(n, maxp, maxPid), evs).Some? ==> Quiet(Exec(Boot(n, maxp, maxPid), evs).value)
    ensures Exec(Boot(n, maxp, maxPid), evs).Some?
    ensures var p := Exec(Boot(n, maxp, maxPid), evs).value.pool;
            && p.created == p.freed
            && (forall j :: 0 <= j < |p.T| ==> !p.T[j].alive)
            && (forall pid :: 0 <= pid < |p.table| ==> p.table[pid] == -1)
  {
    Safety(n, maxp, maxPid, evs);
    var s := Exec(Boot(n, maxp, maxPid), evs).value;
    forall j | 0 <= j < |s.pool.T| ensures !s.pool.T[j].alive {
      IdleHold(s.ctxs, j);
      assert Owed(s, j) == 0;
    }
    AliveCountZero(s.pool.T);
  }

  lemma {:induction false} IdleHold(xs: seq<Ctx>, j: nat)
    requires forall c :: 0 <= c < |xs| ==> xs[c].Idle?
    ensures SumHeld(xs, j) == 0
  {
    if xs != [] { IdleHold(xs[1..], j); }
  }

  // ---------------------------------------------------------------- identity

  /** A lookup by PID and sequence number finds that very incarnation or nothing. */
  lemma LookupIsExact(n: nat, maxp: nat, maxPid: nat, evs: seq<Event>, pid: int, q: int)
    requires AllConsiderate(Boot(n, maxp, maxPid), evs)
    ensures Exec(Boot(n, maxp, maxPid), evs).Some?
    ensures var p := Exec(Boot(n, maxp, maxPid), evs).value.pool;
            && |p.table| == |p.tableSeq|
            && (PublishedSeq(p, pid, q) >= 0 <==> exists i: nat :: Here(p, i, q) && p.T[i].pid == pid)
            && (PublishedSeq(p, pid, q) >= 0 ==> Here(p, PublishedSeq(p, pid, q), q))
  {
    Safety(n, maxp, maxPid, evs);
    var p := Exec(Boot(n, maxp, maxPid), evs).value.pool;
    PublishedAlive(Exec(Boot(n, maxp, maxPid), evs).value, pid, q);
    if i: nat :| Here(p, i, q) && p.T[i].pid == pid {
      assert PublishedAs(p, i);
    }
    var k := PublishedSeq(p, pid, q);
    if k >= 0 {
      assert Here(p, k, q) && p.T[k].pid == pid;
    }
  }

  /** Once an incarnation has been created and freed it never comes back. */
  lemma {:induction false} DeadStaysDead(n: nat, maxp: nat, maxPid: nat, evs: seq<Event>, later: seq<Event>, q: int)
    requires AllConsiderate(Boot(n, maxp, maxPid), evs + later)
    requires var r := Exec(Boot(n, maxp, maxPid), evs);
             r.Some? ==> 1 <= q <= r.value.pool.gSeq && !Lives(r.value.pool, q)
    ensures Exec(Boot(n, maxp, maxPid), evs + later).Some?
    ensures var p := Exec(Boot(n, maxp, maxPid), evs + later).value.pool;
            1 <= q <= p.gSeq && !Lives(p, q)
    decreases |later|
  {
    hide Step, Inv;
    var b := Boot(n, maxp, maxPid);
    Safety(n, maxp, maxPid, evs + later);
    if later == [] {
      assert evs + later == evs;
    } else {
      assert Front(evs + later) == evs + Front(later) && Last(evs + later) == Last(later);
      DeadStaysDead(n, maxp, maxPid, evs, Front(later), q);
      Safety(n, maxp, maxPid, evs + Front(later));
      var s := Exec(b, evs + Front(later)).value;
      Evolves(s, Last(later));
      var s' := Step(s, Last(later)).value;
      assert forall i: nat :: Here(s'.pool, i, q) ==> Here(s.pool, i, q);
    }
  }

  /** A stale (pid, sequence) pair never resolves again, even after the PID and the block are reused. */
  lemma StalePairFails(n: nat, maxp: nat, maxPid: nat, evs: seq<Event>, later: seq<Event>, pid: int, q: int)
    requires AllConsiderate(Boot(n, maxp, maxPid), evs + later)
    requires var r := Exec(Boot(n, maxp, maxPid), evs);
             r.Some? ==> 1 <= q <= r.value.pool.gSeq && !Lives(r.value.pool, q)
    ensures Exec(Boot(n, maxp, maxPid), evs + later).Some?
    ensures var p := Exec(Boot(n, maxp, maxPid), evs + later).value.pool;
            |p.table| == |p.tableSeq| && PublishedSeq(p, pid, q) < 0
  {
    DeadStaysDead(n, maxp, maxPid, evs, later, q);
    LookupIsExact(n, maxp, maxPid, evs + later, pid, q);
  }

  // ---------------------------------------------------------------- who frees the block

  /** The event is a context's own drop of a running reference on slot i. */
  ghost predicate DropsOwnRun(s: Sys, e: Event, i: nat) {
    && e.c < |s.ctxs|
    && ((e.Bury? && s.ctxs[e.c].Switching? && s.ctxs[e.c].i == i)
        || (e.DropRunning? && At?(s, e.c, Yielding) && s.ctxs[e.c].i == i))
  }

  /** A context that drops its own running reference frees the block it runs on exactly when
      the creation reference is already gone and nobody else holds one. */
  lemma SelfFreeExactly(s: Sys, e: Event, i: nat)
    requires Inv(s, 0, 0) && WellShaped(s) && DropsOwnRun(s, e, i)
    ensures i < |s.pool.T| == |s.ledger| && Step(s, e).Some? && |Step(s, e).value.pool.T| == |s.pool.T|
    ensures !Step(s, e).value.pool.T[i].alive
            <==> s.ledger[i] == Dropped && !s.pool.T[i].onQueue && SumHeld(s.ctxs, i) == 1
  {
    StepKept(s, e);
    assert CtxOk(s, s.ctxs[e.c]);
    SumHeldPut(s.ctxs, e.c, Idle, i);
    assert s.pool.T[i].refCount == Owed(s, i);
  }

  /** Claims wait until the process has left every CPU (and, at shutdown, the queue). */
  ghost predicate Patient(s: Sys, e: Event) {
    && (e.Claim? && At?(s, e.c, Looking) ==> NoRunner(s, s.ctxs[e.c].i))
    && (e.HaltClaim? && Published(s.pool, e.pid) >= 0 ==>
          var i := Published(s.pool, e.pid);
          NoRunner(s, i) && i < |s.pool.T| && !s.pool.T[i].onQueue)
  }

  ghost predicate NoRunner(s: Sys, i: nat) {
    forall b :: 0 <= b < |s.ctxs| ==> !RunsOn(s.ctxs[b], i)
  }

  ghost predicate AllPatient(s0: Sys, evs: seq<Event>)
    decreases |evs|
  {
    evs == [] || (AllPatient(s0, Front(evs)) && (Exec(s0, Front(evs)).Some?
        ==> Patient(Exec(s0, Front(evs)).value, Last(evs))))
  }

  predicate Runnable(p: Proc) { p.alive && p.onQueue && p.state != Terminated }

  ghost predicate AnchoredCtx(s: Sys, x: Ctx) {
    forall i: nat :: i < |s.ledger| && RunsOn(x, i) ==> s.ledger[i] == Committed
  }

  /** A running or runnable process still has its creation reference. */
  ghost predicate Anchored(s: Sys)
    requires |s.pool.T| == |s.ledger|
  {
    && (forall c :: 0 <= c < |s.ctxs| ==> AnchoredCtx(s, s.ctxs[c]))
    && (forall j :: 0 <= j < |s.pool.T| && Runnable(s.pool.T[j]) ==> s.ledger[j] == Committed)
  }

  /** pick_next returns the lowest queued and runnable slot, -1 exactly when there is none from
      `from` on; elsewhere it only drains. */
  lemma {:induction false} PickPicks(p: Pool, from: nat)
    requires |p.table| == |p.tableSeq|
    ensures var r := PickFrom(p, from);
            r.Some? ==>
              && |r.value.0.T| == |p.T| && -1 <= r.value.1 < |p.T|
              && (r.value.1 >= 0 ==> r.value.1 >= from && Runnable(p.T[r.value.1]))
              && (forall j :: from <= j < |p.T| && (r.value.1 < 0 || j < r.value.1) ==> !Runnable(p.T[j]))
              && forall j :: 0 <= j < |p.T| && r.value.0.T[j].alive ==>
                   && p.T[j].alive && (r.value.0.T[j].onQueue ==> p.T[j].onQueue)
                   && r.value.0.T[j].state == p.T[j].state
    decreases |p.T| - from
  {
    if from < |p.T| {
      if !(p.T[from].alive && p.T[from].onQueue) {
        PickPicks(p, from + 1);
      } else if p.T[from].state == Terminated {
        var r := Unref(SetQueued(p, from, false), from);
        if r.Some? {
          DrainOne(p, from, r.value);
          PickPicks(r.value, from + 1);
        }
      }
    }
  }

  /** Draining an entry leaves the other blocks alone. */
  lemma DrainOne(p: Pool, i: nat, q: Pool)
    requires i < |p.T| && |p.table| == |p.tableSeq| && Unref(SetQueued(p, i, false), i) == Some(q)
    requires p.T[i].state == Terminated
    ensures |q.T| == |p.T| && |q.table| == |q.tableSeq|
    ensures forall j :: 0 <= j < |p.T| && j != i ==> q.T[j] == p.T[j]
    ensures q.T[i].state == Terminated && !q.T[i].onQueue && p.T[i].alive
  {
  }

  lemma AnchoredPick(s: Sys, e: Event)
    requires |s.pool.T| == |s.ledger| && WellShaped(s) && Anchored(s) && (e.Pick? || e.Switch?)
    requires Step(s, e).Some?
    ensures var s' := Step(s, e).value; |s'.pool.T| == |s'.ledger| && Anchored(s')
  {
    PickPicks(s.pool, 0);
    if e.Pick? {
      if Idle?(s, e.c) { assert Step(s, e) == StepPick(s, e.c); }
    } else if At?(s, e.c, Dying) {
      assert Step(s, e) == StepSwitch(s, e.c);
      assert RunsOn(s.ctxs[e.c], s.ctxs[e.c].i);
    }
  }

  /** A claim on a process that is neither running nor runnable. */
  lemma ClaimAnchored(s: Sys, c: nat, i: nat, won: Ctx, lost: Ctx)
    requires |s.pool.T| == |s.ledger| && c < |s.ctxs| && i < |s.pool.T|
    requires Anchored(s) && NoRunner(s, i) && !Runnable(s.pool.T[i])
    requires forall j: nat :: !RunsOn(won, j) && !RunsOn(lost, j)
    ensures var s' := StepClaim(s, c, i, won, lost); |s'.pool.T| == |s'.ledger| && Anchored(s')
  {
    var s' := StepClaim(s, c, i, won, lost);
    forall b | 0 <= b < |s'.ctxs| ensures AnchoredCtx(s', s'.ctxs[b]) {
      if b != c { assert AnchoredCtx(s, s.ctxs[b]); }
    }
  }

  lemma AnchoredClaim(s: Sys, e: Event)
    requires WellShaped(s) && Anchored(s) && Patient(s, e) && (e.Claim? || e.HaltClaim?)
    requires Step(s, e).Some?
    ensures var s' := Step(s, e).value; |s'.pool.T| == |s'.ledger| && Anchored(s')
  {
    hide Anchored, NoRunner, StepClaim;
    if e.Claim? && At?(s, e.c, Looking) {
      var x := s.ctxs[e.c];
      assert InRange(x, |s.pool.T|);
      if s.pool.T[x.i].state == Terminated { ClaimAnchored(s, e.c, x.i, x.(pc := Won), x.(pc := Settled)); }
    }
    if e.HaltClaim? && Published(s.pool, e.pid) >= 0 && Idle?(s, e.c) {
      var i := Published(s.pool, e.pid);
      ClaimAnchored(s, e.c, i, At(HaltWon, i, s.pool.T[i].createSeq), Idle);
    }
  }

  /** One context moves; committed slots stay committed and only committed ones become runnable. */
  ghost predicate KeepsAnchor(s: Sys, s': Sys, c: nat)
    requires |s.pool.T| == |s.ledger|
  {
    && |s'.pool.T| == |s'.ledger| == |s.ledger| && c < |s.ctxs| == |s'.ctxs|
    && s'.ctxs == s.ctxs[c := s'.ctxs[c]]
    && AnchoredCtx(s', s'.ctxs[c])
    && (forall j :: 0 <= j < |s.ledger| && s.ledger[j] == Committed ==> s'.ledger[j] == Committed)
    && (forall j :: 0 <= j < |s.ledger| && Runnable(s'.pool.T[j])
         ==> s'.ledger[j] == Committed || Runnable(s.pool.T[j]))
  }

  lemma AnchorFrame(s: Sys, s': Sys, c: nat)
    requires |s.pool.T| == |s.ledger| && Anchored(s) && KeepsAnchor(s, s', c)
    ensures Anchored(s')
  {
    forall b | 0 <= b < |s'.ctxs| ensures AnchoredCtx(s', s'.ctxs[b]) {
      if b != c { assert AnchoredCtx(s, s.ctxs[b]); }
    }
  }

  /** Nothing becomes runnable, except perhaps slot i. */
  ghost predicate Drains(p: Pool, p': Pool, i: int) {
    |p'.T| == |p.T| && forall j :: 0 <= j < |p.T| && j != i && Runnable(p'.T[j]) ==> Runnable(p.T[j])
  }

  /** No operation on slot i makes anything runnable, except that an enqueue may make i so. */
  ghost predicate AllDrain(p: Pool, i: nat)
    requires i < |p.T| && |p.table| == |p.tableSeq|
  {
    && (Unref(p, i).Some? ==> Drains(p, Unref(p, i).value, -1))
    && (Ref(p, i).Some? ==> Drains(p, Ref(p, i).value, -1))
    && (SchedAdd(p, i).Some? ==> Drains(p, SchedAdd(p, i).value, i))
    && (SchedRemove(p, i).Some? ==> Drains(p, SchedRemove(p, i).value, -1))
    && Drains(p, SetReaped(p, i), -1) && Drains(p, SetState(p, i, Terminated), -1)
    && Drains(p, SetState(Reparent(p, p.T[i].pid), i, Terminated), -1)
  }

  lemma OpsDrain(p: Pool, i: nat)
    requires i < |p.T| && |p.table| == |p.tableSeq|
    ensures AllDrain(p, i)
  {
  }

  /** What the anchor says about one context and the slots it names. */
  lemma AnchorFacts(s: Sys, x: Ctx)
    requires WellShaped(s) && InRange(x, |s.pool.T|) && AnchoredCtx(s, x)
    ensures !x.Idle? ==> AllDrain(s.pool, x.i) && (RunsOn(x, x.i) ==> s.ledger[x.i] == Committed)
    ensures x.Switching? && x.next.Some? ==> s.ledger[x.next.value.0] == Committed
  {
    if !x.Idle? { OpsDrain(s.pool, x.i); }
    if x.Switching? && x.next.Some? { assert RunsOn(x, x.next.value.0); }
  }

  lemma AnchoredScheduler(s: Sys, e: Event)
    requires WellShaped(s) && e.c < |s.ctxs| && CtxOk(s, s.ctxs[e.c]) && AnchoredCtx(s, s.ctxs[e.c])
    requires e.Requeue? || e.DropRunning? || e.Exit? || e.Unqueue? || e.Bury?
    requires Step(s, e).Some?
    ensures KeepsAnchor(s, Step(s, e).value, e.c)
  {
    hide Ref, Unref, SchedAdd, SchedRemove, Reparent, SetState, SetReaped, PickFrom, Runnable;
    AnchorFacts(s, s.ctxs[e.c]);
  }

  lemma AnchoredBirth(s: Sys, e: Event)
    requires WellShaped(s) && e.c < |s.ctxs| && CtxOk(s, s.ctxs[e.c]) && AnchoredCtx(s, s.ctxs[e.c])
    requires e.Commit? || e.Abandon? || e.Cleanup?
    requires Step(s, e).Some?
    ensures KeepsAnchor(s, Step(s, e).value, e.c)
  {
    hide Ref, Unref, SchedAdd, SchedRemove, Reparent, SetState, SetReaped, PickFrom, Runnable;
    AnchorFacts(s, s.ctxs[e.c]);
  }

  lemma AnchoredDrop(s: Sys, e: Event)
    requires WellShaped(s) && e.c < |s.ctxs| && CtxOk(s, s.ctxs[e.c]) && AnchoredCtx(s, s.ctxs[e.c])
    requires e.DropCreation? || e.HaltDrop? || e.Release? || e.DropLookup?
    requires Step(s, e).Some?
    ensures KeepsAnchor(s, Step(s, e).value, e.c)
  {
    hide Ref, Unref, SchedAdd, SchedRemove, Reparent, SetState, SetReaped, PickFrom, Runnable;
    AnchorFacts(s, s.ctxs[e.c]);
  }

  lemma AnchoredReaper(s: Sys, e: Event)
    requires WellShaped(s) && e.c < |s.ctxs| && CtxOk(s, s.ctxs[e.c]) && AnchoredCtx(s, s.ctxs[e.c])
    requires e.Kill? || e.BareDestroy? || e.Unlink?
    requires Step(s, e).Some?
    ensures KeepsAnchor(s, Step(s, e).value, e.c)
  {
    hide Ref, Unref, SchedAdd, SchedRemove, Reparent, SetState, SetReaped, PickFrom, Runnable;
    AnchorFacts(s, s.ctxs[e.c]);
  }

  lemma AnchoredLookup(s: Sys, e: Event)
    requires WellShaped(s) && e.c < |s.ctxs| && CtxOk(s, s.ctxs[e.c]) && AnchoredCtx(s, s.ctxs[e.c])
    requires e.Lookup? || e.LookupSeq?
    requires Step(s, e).Some?
    ensures KeepsAnchor(s, Step(s, e).value, e.c)
  {
    hide Ref, Unref, SchedAdd, SchedRemove, Reparent, SetState, SetReaped, PickFrom, Runnable;
    AnchorFacts(s, s.ctxs[e.c]);
    var i := if e.Lookup? then Published(s.pool, e.pid) else PublishedSeq(s.pool, e.pid, e.q);
    if i >= 0 { OpsDrain(s.pool, i); }
  }

  lemma AnchoredMove(s: Sys, e: Event)
    requires Inv(s, 0, 0) && WellShaped(s) && Anchored(s) && e.c < |s.ctxs| && Step(s, e).Some?
    requires !e.Claim? && !e.HaltClaim? && !e.Pick? && !e.Switch? && !e.Create?
    ensures KeepsAnchor(s, Step(s, e).value, e.c)
  {
    hide Step, KeepsAnchor, Inv;
    CtxFact(s, e.c);
    match e {
      case Requeue(_) | DropRunning(_) | Exit(_) | Unqueue(_) | Bury(_) => AnchoredScheduler(s, e);
      case Commit(_) | Abandon(_) | Cleanup(_) => AnchoredBirth(s, e);
      case DropCreation(_) | HaltDrop(_) | Release(_) | DropLookup(_) => AnchoredDrop(s, e);
      case Kill(_) | BareDestroy(_) | Unlink(_) => AnchoredReaper(s, e);
      case Lookup(_, _) | LookupSeq(_, _, _) => AnchoredLookup(s, e);
    }
  }

  lemma AnchoredStep(s: Sys, e: Event)
    requires Inv(s, 0, 0) && WellShaped(s) && Anchored(s) && Patient(s, e)
    requires Step(s, e).Some?
    ensures var s' := Step(s, e).value; |s'.pool.T| == |s'.ledger| && Anchored(s')
  {
    if e.Claim? || e.HaltClaim? {
      AnchoredClaim(s, e);
    } else if e.Pick? || e.Switch? {
      AnchoredPick(s, e);
    } else if e.c < |s.ctxs| {
      if e.Create? {
        if Creates(s, e) { AnchoredCreate(s, e); }
      } else {
        AnchoredMove(s, e);
        AnchorFrame(s, Step(s, e).value, e.c);
      }
    }
  }

  lemma AnchoredCreate(s: Sys, e: Event)
    requires Inv(s, 0, 0) && WellShaped(s) && Anchored(s) && Creates(s, e)
    requires Step(s, e).Some?
    ensures var s' := Step(s, e).value; |s'.pool.T| == |s'.ledger| && Anchored(s')
  {
    var f := FirstFree(s.pool.T);
    assert Owed(s, f) == 0;
    Unnamed(s, f);
    AnchorFrame(s, Step(s, e).value, e.c);
  }

  /** When claims are patient, no schedule lets a context free the block it is running on. */
  lemma {:induction false} PatientNeverSelfFrees(n: nat, maxp: nat, maxPid: nat, evs: seq<Event>)
    requires AllConsiderate(Boot(n, maxp, maxPid), evs)
    requires AllPatient(Boot(n, maxp, maxPid), evs)
    ensures Exec(Boot(n, maxp, maxPid), evs).Some?
    ensures var s := Exec(Boot(n, maxp, maxPid), evs).value;
            && WellShaped(s) && Anchored(s)
            && forall e, i: nat :: DropsOwnRun(s, e, i) ==>
                 Step(s, e).Some? && i < |Step(s, e).value.pool.T| && Step(s, e).value.pool.T[i].alive
    decreases |evs|
  {
    var b := Boot(n, maxp, maxPid);
    Safety(n, maxp, maxPid, evs);
    if evs != [] {
      PatientNeverSelfFrees(n, maxp, maxPid, Front(evs));
      Safety(n, maxp, maxPid, Front(evs));
      AnchoredStep(Exec(b, Front(evs)).value, Last(evs));
    }
    var s := Exec(b, evs).value;
    forall e, i: nat | DropsOwnRun(s, e, i)
      ensures Step(s, e).Some? && i < |Step(s, e).value.pool.T| && Step(s, e).value.pool.T[i].alive
    {
      SelfFreeExactly(s, e, i);
      assert RunsOn(s.ctxs[e.c], i);
    }
  }

  // ---------------------------------------------------------------- the baseline protocol

  /** The baseline has no claim: reapers go straight to process_destroy. */
  predicate Baseline(evs: seq<Event>) {
    forall k :: 0 <= k < |evs| ==> !evs[k].Claim? && !evs[k].HaltClaim?
  }

  /** Incarnation q sits in slot i and its creation reference was left to it at commit. */
  ghost predicate Enlisted(s: Sys, i: nat, q: int) {
    i < |s.pool.T| == |s.ledger| && s.ledger[i] == Committed && s.pool.T[i].createSeq == q
  }

  /** In the baseline, whatever anyone does, a process that was once enqueued is never freed and
      its PID stays published: the creation reference leaks. */
  lemma BaselineLeaks(n: nat, maxp: nat, maxPid: nat, evs: seq<Event>, later: seq<Event>, i: nat, q: int)
    requires AllConsiderate(Boot(n, maxp, maxPid), evs)
    requires Baseline(later)
    requires Exec(Boot(n, maxp, maxPid), evs).Some? ==> Enlisted(Exec(Boot(n, maxp, maxPid), evs).value, i, q)
    ensures Exec(Boot(n, maxp, maxPid), evs + later).Some?
    ensures var s := Exec(Boot(n, maxp, maxPid), evs + later).value;
            && Enlisted(s, i, q) && Here(s.pool, i, q) && s.pool.T[i].refCount >= 1
            && Published(s.pool, s.pool.T[i].pid) == i
  {
    BaselineKeeps(n, maxp, maxPid, evs, later, i, q);
    BaselineConsiderate(Boot(n, maxp, maxPid), evs, later);
    Safety(n, maxp, maxPid, evs + later);
    hide Boot, Exec;
    var s := Exec(Boot(n, maxp, maxPid), evs + later).value;
    assert s.pool.T[i].refCount == Owed(s, i);
    assert PublishedAs(s.pool, i);
  }

  lemma {:induction false} BaselineConsiderate(s: Sys, evs: seq<Event>, later: seq<Event>)
    requires AllConsiderate(s, evs) && Baseline(later)
    ensures AllConsiderate(s, evs + later)
    decreases |later|
  {
    hide Exec;
    if later == [] {
      assert evs + later == evs;
    } else {
      assert Front(evs + later) == evs + Front(later) && Last(evs + later) == Last(later);
      BaselineConsiderate(s, evs, Front(later));
    }
  }

  lemma {:induction false} BaselineKeeps(n: nat, maxp: nat, maxPid: nat, evs: seq<Event>, later: seq<Event>, i: nat,
      q: int)
    requires AllConsiderate(Boot(n, maxp, maxPid), evs)
    requires Baseline(later)
    requires Exec(Boot(n, maxp, maxPid), evs).Some? ==> Enlisted(Exec(Boot(n, maxp, maxPid), evs).value, i, q)
    ensures Exec(Boot(n, maxp, maxPid), evs + later).Some?
    ensures Enlisted(Exec(Boot(n, maxp, maxPid), evs + later).value, i, q)
    decreases |later|
  {
    hide Step, Inv;
    var b := Boot(n, maxp, maxPid);
    BaselineConsiderate(b, evs, later);
    Safety(n, maxp, maxPid, evs + later);
    if later == [] {
      assert evs + later == evs;
    } else {
      BaselineKeeps(n, maxp, maxPid, evs, Front(later), i, q);
      BaselineConsiderate(b, evs, Front(later));
      assert Front(evs + later) == evs + Front(later) && Last(evs + later) == Last(later);
      Safety(n, maxp, maxPid, evs + Front(later));
      BaselineStep(Exec(b, evs + Front(later)).value, Last(later), i);
    }
  }

  lemma BaselineStep(s: Sys, e: Event, i: nat)
    requires Inv(s, 0, 0) && WellShaped(s) && i < |s.ledger| && s.ledger[i] == Committed
    requires !e.Claim? && !e.HaltClaim? && Step(s, e).Some?
    ensures var s' := Step(s, e).value;
            |s'.ledger| == |s.ledger| == |s'.pool.T| && s'.ledger[i] == Committed
                && s'.pool.T[i].createSeq == s.pool.T[i].createSeq
  {
    Evolves(s, e);
    CommittedLives(s, i);
    hide Step, Inv;
    if e.c < |s.ctxs| {
      CtxFact(s, e.c);
      CommittedStays(s, e, i);
    }
  }

  lemma CommittedLives(s: Sys, i: nat)
    requires Inv(s, 0, 0) && i < |s.ledger| && s.ledger[i] == Committed
    ensures s.pool.T[i].alive
  {
    assert s.pool.T[i].refCount == Owed(s, i);
  }

  lemma CommittedStays(s: Sys, e: Event, i: nat)
    requires WellShaped(s) && i < |s.ledger| && s.ledger[i] == Committed && s.pool.T[i].alive
    requires e.c < |s.ctxs| && CtxOk(s, s.ctxs[e.c])
    requires !e.Claim? && !e.HaltClaim? && Step(s, e).Some?
    ensures |Step(s, e).value.ledger| == |s.ledger| && Step(s, e).value.ledger[i] == Committed
  {
    hide Ref, Unref, SchedAdd, SchedRemove, Reparent, SetState, SetReaped, PickFrom, CreateAt;
  }

  // ---------------------------------------------------------------- the fixed protocol reaps

  /** A zombie that holds only its creation reference, whoever its parent was. */
  ghost predicate Zombie(s: Sys, i: nat) {
    i < |s.pool.T| == |s.ledger| && s.pool.T[i].state == Terminated && s.ledger[i] == Committed && Owed(s, i) == 1
  }

  lemma ExecSnoc(s: Sys, evs: seq<Event>, e: Event, t: Sys)
    requires Exec(s, evs) == Some(t) && WellShaped(t)
    ensures Exec(s, evs + [e]) == Step(t, e)
  {
    assert Front(evs + [e]) == evs && Last(evs + [e]) == e;
  }

  /** From any reachable state one reap by any idle context frees the zombie and its PID. */
  lemma ReapFrees(s: Sys, c: nat, i: nat)
    requires Inv(s, 0, 0) && WellShaped(s) && Zombie(s, i) && Idle?(s, c)
    ensures 0 <= s.pool.T[i].pid < |s.pool.table|
    ensures var r := Exec(s, [Lookup(c, s.pool.T[i].pid)] + [Claim(c)] + [DropCreation(c)] + [Unlink(c)]
        + [DropLookup(c)]);
            && r.Some? && !Lives(r.value.pool, s.pool.T[i].createSeq)
            && r.value.pool.table == s.pool.table[s.pool.T[i].pid := -1]
            && r.value.pool.freed == s.pool.freed + 1
            && r.value.ctxs == s.ctxs
  {
    assert s.pool.T[i].refCount == 1;
    assert PublishedAs(s.pool, i) && SlotOk(s, i);
    var e := Lookup(c, s.pool.T[i].pid);
    var s2 := ReapToWon(s, c, i);
    ExecSnoc(s, [], e, s);
    assert [] + [e] == [e];
    ExecSnoc(s, [e], Claim(c), Step(s, e).value);
    var s3 := ReapToSettled(s2, c, i);
    ExecSnoc(s, [e] + [Claim(c)], DropCreation(c), s2);
    var s4 := ReapToRemoved(s3, c, i);
    ExecSnoc(s, [e] + [Claim(c)] + [DropCreation(c)], Unlink(c), s3);
    ExecSnoc(s, [e] + [Claim(c)] + [DropCreation(c)] + [Unlink(c)], DropLookup(c), s4);
    var s5 := ReapLast(s4, c, i);
    assert s5.ctxs == s.ctxs;
  }

  lemma ReapLast(s: Sys, c: nat, i: nat) returns (s5: Sys)
    requires Inv(s, 0, 0) && WellShaped(s) && i < |s.pool.T| && c < |s.ctxs|
    requires s.ctxs[c] == At(Removed, i, s.pool.T[i].createSeq) && s.pool.T[i].refCount == 1
    requires PublishedAs(s.pool, i)
    ensures Step(s, DropLookup(c)) == Some(s5)
    ensures !Lives(s5.pool, s.pool.T[i].createSeq)
    ensures s5.pool.table == s.pool.table[s.pool.T[i].pid := -1] && s5.pool.freed == s.pool.freed + 1
    ensures s5.ctxs == s.ctxs[c := Idle]
  {
    assert CtxOk(s, s.ctxs[c]);
    s5 := Step(s, DropLookup(c)).value;
    forall j: nat ensures !Here(s5.pool, j, s.pool.T[i].createSeq) {
    }
  }

  lemma ReapToWon(s: Sys, c: nat, i: nat) returns (s2: Sys)
    requires Inv(s, 0, 0) && WellShaped(s) && Zombie(s, i) && Idle?(s, c)
    requires PublishedAs(s.pool, i) && SlotOk(s, i) && s.pool.T[i].refCount == 1
    ensures Step(s, Lookup(c, s.pool.T[i].pid)).Some? && WellShaped(Step(s, Lookup(c, s.pool.T[i].pid)).value)
    ensures Step(Step(s, Lookup(c, s.pool.T[i].pid)).value, Claim(c)) == Some(s2)
    ensures Inv(s2, 0, 0) && WellShaped(s2)
    ensures s2.pool == s.pool.(T := s.pool.T[i := s.pool.T[i].(refCount := 2, reaped := true)])
    ensures s2.ctxs == s.ctxs[c := At(Won, i, s.pool.T[i].createSeq)]
  {
    hide Inv;
    var e := Lookup(c, s.pool.T[i].pid);
    StepKept(s, e);
    var s1 := Step(s, e).value;
    assert s1.ctxs[c] == At(Looking, i, s.pool.T[i].createSeq);
    StepKept(s1, Claim(c));
    s2 := Step(s1, Claim(c)).value;
  }

  lemma ReapToSettled(s: Sys, c: nat, i: nat) returns (s3: Sys)
    requires Inv(s, 0, 0) && WellShaped(s) && i < |s.pool.T| && c < |s.ctxs|
    requires s.ctxs[c] == At(Won, i, s.pool.T[i].createSeq) && s.pool.T[i].refCount == 2
    ensures Step(s, DropCreation(c)) == Some(s3) && Inv(s3, 0, 0) && WellShaped(s3)
    ensures s3.pool == s.pool.(T := s.pool.T[i := s.pool.T[i].(refCount := 1)])
    ensures s3.ctxs == s.ctxs[c := At(Settled, i, s.pool.T[i].createSeq)]
  {
    StepKept(s, DropCreation(c));
    assert CtxOk(s, s.ctxs[c]);
    s3 := Step(s, DropCreation(c)).value;
  }

  lemma ReapToRemoved(s: Sys, c: nat, i: nat) returns (s4: Sys)
    requires Inv(s, 0, 0) && WellShaped(s) && i < |s.pool.T| && c < |s.ctxs|
    requires s.ctxs[c] == At(Settled, i, s.pool.T[i].createSeq) && !s.pool.T[i].onQueue
    ensures Step(s, Unlink(c)) == Some(s4) && Inv(s4, 0, 0) && WellShaped(s4)
    ensures s4.pool == s.pool && s4.ctxs == s.ctxs[c := At(Removed, i, s.pool.T[i].createSeq)]
  {
    StepKept(s, Unlink(c));
    assert CtxOk(s, s.ctxs[c]);
    s4 := Step(s, Unlink(c)).value;
  }

  // ---------------------------------------------------------------- events and calls

  /** With nothing in between, the events of a reaper are the C calls it makes: the claim and its
      drop are reap_claim_release, the rest is process_destroy. */
  lemma ReaperCalls(s: Sys, c: nat)
    requires Inv(s, 0, 0) && WellShaped(s) && At?(s, c, Looking)
    requires s.pool.T[s.ctxs[c].i].state == Terminated
    ensures var i := s.ctxs[c].i;
      && Step(s, Claim(c)).Some? && WellShaped(Step(s, Claim(c)).value)
      && var s2 := Step(Step(s, Claim(c)).value, DropCreation(c));
         && (ClaimRelease(s.pool, i) == if s2.None? then None else Some(s2.value.pool))
         && (s2.Some? ==> At?(s2.value, c, Settled) && s2.value.ctxs[c].i == i)
  {
    hide Inv, Ref, Unref, SchedAdd, SchedRemove, PickFrom, SetState, Reparent;
    CtxFact(s, c);
    if s.pool.T[s.ctxs[c].i].reaped { assert SetReaped(s.pool, s.ctxs[c].i) == s.pool; }
  }

  lemma DestroyCall(s: Sys, c: nat)
    requires Inv(s, 0, 0) && WellShaped(s) && At?(s, c, Settled)
    ensures var i := s.ctxs[c].i;
      && Step(s, Unlink(c)).Some? && WellShaped(Step(s, Unlink(c)).value)
      && var s1 := Step(s, Unlink(c)).value;
         Step(s1, DropLookup(c)).Some? && Destroy(s.pool, i) == Some(Step(s1, DropLookup(c)).value.pool)
  {
    hide Inv, Ref, Unref, SchedAdd, SchedRemove, PickFrom, SetState, Reparent;
    StepKept(s, Unlink(c));
    StepKept(Step(s, Unlink(c)).value, DropLookup(c));
    CtxFact(s, c);
  }

  lemma ScheduleCall(s: Sys, c: nat)
    requires Inv(s, 0, 0) && WellShaped(s) && At?(s, c, Dying)
    ensures var i := s.ctxs[c].i;
      && Step(s, Switch(c)).Some? && WellShaped(Step(s, Switch(c)).value)
      && var s1 := Step(s, Switch(c)).value;
         Step(s1, Bury(c)).Some? && ScheduleTerminated(s.pool, i) == Some(Step(s1, Bury(c)).value.pool)
  {
    hide Inv, Ref, Unref, SchedAdd, SchedRemove, PickFrom, SetState, Reparent;
    StepKept(s, Switch(c));
    StepKept(Step(s, Switch(c)).value, Bury(c));
    CtxFact(s, c);
    assert Step(s, Switch(c)) == StepSwitch(s, c);
  }
}
