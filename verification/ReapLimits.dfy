/** The two conditions the reap theorems put on claims are needed: from any reachable state a claim that
    breaks one of them has a continuation that breaks the guarantee.

    Both proofs drain a process: every context but one gives back what it holds on it, one event at a time. */
module ReapLimits {
  import opened Common
  import opened ProcessPool
  import opened ReapProtocol
  import opened ReapTheorems

  // ---------------------------------------------------------------- draining one context

  /** How many events the context is away from holding nothing on slot i. */
  function Rank(x: Ctx, i: nat): nat {
    match x
    case Idle => 0
    case At(pc, j, _) =>
      if j != i then 0
      else if pc.OnCpu? then 5 else if pc.Exiting? then 4 else if pc.Dying? || pc.Won? then 3
      else if pc.Settled? then 2 else 1
    case Switching(j, _, next) =>
      if next.Some? && next.value.0 == i then 6 else if j == i then 1 else 0
  }

  /** The event that takes context c further. */
  function Next(x: Ctx, c: nat): Event {
    match x
    case Idle => Release(c)
    case Switching(_, _, _) => Bury(c)
    case At(pc, _, _) =>
      match pc
      case Creating => Commit(c)
      case Cleaning => Cleanup(c)
      case OnCpu => Exit(c)
      case Yielding => DropRunning(c)
      case Exiting => Unqueue(c)
      case Dying => Switch(c)
      case Looking => Release(c)
      case Won => DropCreation(c)
      case Settled => Unlink(c)
      case Removed => DropLookup(c)
      case HaltWon => HaltDrop(c)
  }

  /** Slot i holds, or held, incarnation q, which nobody will run or queue again. */
  ghost predicate Sinking(s: Sys, i: nat, q: int) {
    && i < |s.pool.T| == |s.ledger| && s.pool.T[i].createSeq == q
    && (s.pool.T[i].alive ==>
          && !s.pool.T[i].onQueue && (s.pool.T[i].state == Terminated || NoRunner(s, i))
          && (s.ledger[i].Claimed? || s.ledger[i].Dropped?))
  }

  /** Slot i keeps its incarnation or dies, and is not queued or revived. */
  ghost predicate Steady(p: Pool, p': Pool, i: nat) {
    && i < |p.T| == |p'.T| && p'.T[i].createSeq == p.T[i].createSeq
    && (p'.T[i].alive ==>
          && p.T[i].alive && (p'.T[i].onQueue ==> p.T[i].onQueue)
          && (p'.T[i].state == p.T[i].state || p'.T[i].state == Terminated))
  }

  lemma OpsSteady(p: Pool, j: nat, i: nat)
    requires i < |p.T| && j < |p.T| && |p.table| == |p.tableSeq|
    ensures Unref(p, j).Some? ==> Steady(p, Unref(p, j).value, i)
    ensures SchedRemove(p, j).Some? ==> Steady(p, SchedRemove(p, j).value, i)
    ensures Steady(p, SetState(Reparent(p, p.T[j].pid), j, Terminated), i)
    ensures Steady(p, SetReaped(p, j), i)
  {
  }

  lemma SwitchSteady(s: Sys, d: nat, i: nat)
    requires WellShaped(s) && At?(s, d, Dying) && StepSwitch(s, d).Some?
    requires i < |s.pool.T| && (s.pool.T[i].alive ==> !s.pool.T[i].onQueue)
    ensures var s' := StepSwitch(s, d).value;
      && Steady(s.pool, s'.pool, i) && s'.ledger == s.ledger
      && s'.ctxs == s.ctxs[d := s'.ctxs[d]] && s'.ctxs[d].Switching? && s'.ctxs[d].i == s.ctxs[d].i
      && (s'.ctxs[d].next.Some? ==> s'.ctxs[d].next.value.0 != i)
  {
    PickPicks(s.pool, 0);
    PickWanes(s.pool, 0);
    hide PickFrom;
  }

  /** One event of context d, without its effect on other slots. */
  ghost predicate Sank(s: Sys, s': Sys, d: nat, i: nat) {
    && Steady(s.pool, s'.pool, i) && |s'.ledger| == |s.ledger|
    && i < |s.ledger| && (s'.ledger[i] == s.ledger[i] || s'.ledger[i] == Dropped)
    && d < |s.ctxs| == |s'.ctxs| && s'.ctxs == s.ctxs[d := s'.ctxs[d]]
    && Rank(s'.ctxs[d], i) < Rank(s.ctxs[d], i)
    && (RunsOn(s'.ctxs[d], i) ==> RunsOn(s.ctxs[d], i))
  }

  lemma SankUnref(s: Sys, d: nat, i: nat)
    requires WellShaped(s) && i < |s.pool.T| && d < |s.ctxs| && CtxOk(s, s.ctxs[d]) && Rank(s.ctxs[d], i) > 0
    requires s.ctxs[d].Switching? || s.ctxs[d].pc.Yielding? || s.ctxs[d].pc.Looking? || s.ctxs[d].pc.Removed?
    requires Step(s, Next(s.ctxs[d], d)).Some?
    ensures Sank(s, Step(s, Next(s.ctxs[d], d)).value, d, i)
  {
    OpsSteady(s.pool, s.ctxs[d].i, i);
    hide Unref, Steady;
  }

  lemma SankDrop(s: Sys, d: nat, i: nat)
    requires WellShaped(s) && i < |s.pool.T| && d < |s.ctxs| && CtxOk(s, s.ctxs[d]) && Rank(s.ctxs[d], i) > 0
    requires s.ctxs[d].At? && (s.ctxs[d].pc.Won? || s.ctxs[d].pc.HaltWon? || s.ctxs[d].pc.Settled?
        || s.ctxs[d].pc.Exiting? || s.ctxs[d].pc.OnCpu?)
    requires Step(s, Next(s.ctxs[d], d)).Some?
    ensures Sank(s, Step(s, Next(s.ctxs[d], d)).value, d, i)
  {
    OpsSteady(s.pool, s.ctxs[d].i, i);
    hide Unref, SchedRemove, Reparent, SetState, Steady;
  }

  /** One event closer to holding nothing, and still sinking. */
  lemma SinkStep(s: Sys, d: nat, i: nat, q: int)
    requires Inv(s, 0, 0) && WellShaped(s) && Sinking(s, i, q) && d < |s.ctxs| && Rank(s.ctxs[d], i) > 0
    ensures var e := Next(s.ctxs[d], d);
      && Step(s, e).Some? && Inv(Step(s, e).value, 0, 0) && WellShaped(Step(s, e).value)
      && Sank(s, Step(s, e).value, d, i) && Sinking(Step(s, e).value, i, q)
  {
    var x := s.ctxs[d];
    var e := Next(x, d);
    hide Inv, Step;
    CtxFact(s, d);
    StillHere(s, x, i);
    StepKept(s, e);
    if x.At? && x.pc.Dying? {
      SankSwitch(s, d, i);
    } else if x.Switching? || x.pc.Yielding? || x.pc.Looking? || x.pc.Removed? {
      SankUnref(s, d, i);
    } else {
      SankDrop(s, d, i);
    }
    SankSinks(s, Step(s, e).value, d, i, q);
  }

  lemma SankSwitch(s: Sys, d: nat, i: nat)
    requires WellShaped(s) && i < |s.pool.T| && At?(s, d, Dying) && CtxOk(s, s.ctxs[d]) && s.ctxs[d].i == i
    requires !s.pool.T[i].onQueue && Step(s, Switch(d)).Some?
    ensures Sank(s, Step(s, Switch(d)).value, d, i)
  {
    assert Step(s, Switch(d)) == StepSwitch(s, d);
    SwitchSteady(s, d, i);
    hide StepSwitch, Steady;
  }

  /** A context that holds something on a sinking slot found it alive, and not with its creator. */
  lemma StillHere(s: Sys, x: Ctx, i: nat)
    requires |s.pool.T| == |s.ledger| && CtxOk(s, x) && Rank(x, i) > 0
    ensures i < |s.pool.T| && s.pool.T[i].alive
    ensures !s.ledger[i].Fresh? ==> x.Switching? || !(x.pc.Creating? || x.pc.Cleaning?)
  {
  }

  lemma SankSinks(s: Sys, s': Sys, d: nat, i: nat, q: int)
    requires Sinking(s, i, q) && Sank(s, s', d, i)
    ensures Sinking(s', i, q)
  {
    if s'.pool.T[i].alive && s'.pool.T[i].state != Terminated {
      forall b | 0 <= b < |s'.ctxs| ensures !RunsOn(s'.ctxs[b], i) {
        assert !RunsOn(s.ctxs[b], i);
      }
    }
  }

  // ---------------------------------------------------------------- draining a slot

  /** Nobody but the context kept holds anything on slot i. */
  ghost predicate OnlyHolder(s: Sys, kept: nat, i: nat) {
    forall b :: 0 <= b < |s.ctxs| && b != kept ==> Rank(s.ctxs[b], i) == 0
  }

  /** From index `from` on the schedule only gives back, and never through `kept`. */
  predicate Spares(evs: seq<Event>, from: nat, kept: nat) {
    forall k :: from <= k < |evs| ==> evs[k].c != kept && GivesBack(evs[k])
  }

  lemma NextGivesBack(s: Sys, c: nat, i: nat, q: int)
    requires Inv(s, 0, 0) && Sinking(s, i, q) && c < |s.ctxs| && Rank(s.ctxs[c], i) > 0
    ensures GivesBack(Next(s.ctxs[c], c)) && Next(s.ctxs[c], c).c == c
  {
    hide Inv;
    CtxFact(s, c);
    StillHere(s, s.ctxs[c], i);
  }

  /** From any state with the slot sinking, the contexts from c on other than `kept` can give back
      everything they hold on it. */
  lemma {:induction false} Drain(s0: Sys, pre: seq<Event>, s: Sys, c: nat, kept: nat, i: nat, q: int)
    returns (evs: seq<Event>, t: Sys)
    requires Exec(s0, pre) == Some(s) && Inv(s, 0, 0) && WellShaped(s) && Sinking(s, i, q) && c <= |s.ctxs|
    requires forall b :: 0 <= b < c && b != kept ==> Rank(s.ctxs[b], i) == 0
    ensures pre <= evs && Spares(evs, |pre|, kept) && Exec(s0, evs) == Some(t)
    ensures Inv(t, 0, 0) && WellShaped(t) && Sinking(t, i, q) && OnlyHolder(t, kept, i)
    ensures |t.ctxs| == |s.ctxs| && (kept < |s.ctxs| ==> t.ctxs[kept] == s.ctxs[kept])
    decreases |s.ctxs| - c, if c < |s.ctxs| then Rank(s.ctxs[c], i) else 0
  {
    hide Inv, Step, Exec, Sinking;
    if c == |s.ctxs| {
      evs, t := pre, s;
    } else if c == kept || Rank(s.ctxs[c], i) == 0 {
      evs, t := Drain(s0, pre, s, c + 1, kept, i, q);
    } else {
      var e := Next(s.ctxs[c], c);
      SinkStep(s, c, i, q);
      NextGivesBack(s, c, i, q);
      ExecSnoc(s0, pre, e, s);
      evs, t := Drain(s0, pre + [e], Step(s, e).value, c, kept, i, q);
      assert evs[|pre|] == e;
    }
  }

  lemma {:induction false} LoneHolder(xs: seq<Ctx>, kept: nat, i: nat)
    requires forall b :: 0 <= b < |xs| && b != kept ==> Rank(xs[b], i) == 0
    ensures SumHeld(xs, i) == if kept < |xs| then Held(xs[kept], i) else 0
    ensures SumOwns(xs, i) == if kept < |xs| then Owns(xs[kept], i) else 0
    decreases |xs|
  {
    if xs != [] {
      if kept == 0 {
        LoneHolder(xs[1..], |xs|, i);
      } else {
        assert Rank(xs[0], i) == 0;
        LoneHolder(xs[1..], kept - 1, i);
      }
    }
  }

  /** A drained slot lives exactly as long as the kept context holds it. */
  lemma Drained(s: Sys, kept: nat, i: nat, q: int)
    requires Inv(s, 0, 0) && Sinking(s, i, q) && OnlyHolder(s, kept, i)
    requires kept < |s.ctxs| && Owns(s.ctxs[kept], i) == 0
    ensures SumHeld(s.ctxs, i) == Held(s.ctxs[kept], i)
    ensures s.pool.T[i].alive <==> Held(s.ctxs[kept], i) > 0
    ensures s.pool.T[i].alive ==> s.ledger[i] == Dropped && !s.pool.T[i].onQueue
  {
    LoneHolder(s.ctxs, kept, i);
    assert s.pool.T[i].refCount == Owed(s, i);
  }

  // ---------------------------------------------------------------- the same run beside another context

  /** The same pool, and the same contexts but for d. The ledger is bookkeeping no event reads. */
  ghost predicate Like(s: Sys, t: Sys, d: nat) {
    && s.pool == t.pool && |s.ledger| == |t.ledger| && d < |s.ctxs| == |t.ctxs|
    && s.ctxs == t.ctxs[d := s.ctxs[d]]
  }

  lemma LikeUnref(s: Sys, t: Sys, d: nat, e: Event)
    requires WellShaped(s) && WellShaped(t) && Like(s, t, d) && e.c != d && Step(t, e).Some?
    requires e.Release? || e.DropLookup? || e.DropRunning? || e.Bury?
    ensures Step(s, e).Some? && Like(Step(s, e).value, Step(t, e).value, d) && Step(s, e).value.ctxs[d] == s.ctxs[d]
  {
    hide Unref;
    if e.c < |s.ctxs| { assert s.ctxs[e.c] == t.ctxs[e.c]; }
  }

  lemma LikeDrop(s: Sys, t: Sys, d: nat, e: Event)
    requires WellShaped(s) && WellShaped(t) && Like(s, t, d) && e.c != d && Step(t, e).Some?
    requires e.DropCreation? || e.HaltDrop? || e.Unqueue? || e.Unlink? || e.Exit?
    ensures Step(s, e).Some? && Like(Step(s, e).value, Step(t, e).value, d) && Step(s, e).value.ctxs[d] == s.ctxs[d]
  {
    hide Unref, SchedRemove, Reparent, SetState;
    if e.c < |s.ctxs| { assert s.ctxs[e.c] == t.ctxs[e.c]; }
  }

  lemma LikeClaim(s: Sys, t: Sys, d: nat, e: Event)
    requires WellShaped(s) && WellShaped(t) && Like(s, t, d) && e.c != d && Step(t, e).Some?
    requires e.Claim? || e.HaltClaim?
    ensures Step(s, e).Some? && Like(Step(s, e).value, Step(t, e).value, d) && Step(s, e).value.ctxs[d] == s.ctxs[d]
  {
    hide SetReaped;
    if e.c < |s.ctxs| { assert s.ctxs[e.c] == t.ctxs[e.c]; }
  }

  lemma LikeSwitch(s: Sys, t: Sys, d: nat, e: Event)
    requires WellShaped(s) && WellShaped(t) && Like(s, t, d) && e.c != d && Step(t, e).Some? && e.Switch?
    ensures Step(s, e).Some? && Like(Step(s, e).value, Step(t, e).value, d) && Step(s, e).value.ctxs[d] == s.ctxs[d]
  {
    hide PickFrom, SetState;
    PickShape(s.pool, 0);
    if e.c < |s.ctxs| { assert s.ctxs[e.c] == t.ctxs[e.c]; }
  }

  /** The events a draining context goes through. */
  predicate GivesBack(e: Event) {
    || e.Release? || e.DropLookup? || e.DropRunning? || e.Bury? || e.Switch?
    || e.DropCreation? || e.HaltDrop? || e.Unqueue? || e.Unlink? || e.Exit?
  }

  lemma LikeStep(s: Sys, t: Sys, d: nat, e: Event)
    requires WellShaped(s) && WellShaped(t) && Like(s, t, d) && e.c != d && Step(t, e).Some? && GivesBack(e)
    requires WellShaped(Step(t, e).value) && |Step(t, e).value.pool.T| == |t.pool.T|
    ensures Step(s, e).Some? && Like(Step(s, e).value, Step(t, e).value, d)
    ensures Step(s, e).value.ctxs[d] == s.ctxs[d] && WellShaped(Step(s, e).value)
  {
    hide Step;
    if e.Switch? {
      LikeSwitch(s, t, d, e);
    } else if e.Release? || e.DropLookup? || e.DropRunning? || e.Bury? {
      LikeUnref(s, t, d, e);
    } else {
      LikeDrop(s, t, d, e);
    }
    assert InRange(s.ctxs[d], |s.pool.T|);
    LikeShape(Step(s, e).value, Step(t, e).value, d);
  }

  lemma LikeShape(s: Sys, t: Sys, d: nat)
    requires WellShaped(t) && Like(s, t, d) && InRange(s.ctxs[d], |s.pool.T|)
    ensures WellShaped(s)
  {
    forall c | 0 <= c < |s.ctxs| ensures InRange(s.ctxs[c], |s.pool.T|) {
      if c != d { assert s.ctxs[c] == t.ctxs[c]; }
    }
  }

  lemma {:induction false} LikeRun(s: Sys, t: Sys, d: nat, evs: seq<Event>, t': Sys)
    requires WellShaped(s) && WellShaped(t) && Like(s, t, d) && Spares(evs, 0, d)
    requires Exec(t, evs) == Some(t') && WellShaped(t')
    ensures Exec(s, evs).Some? && Like(Exec(s, evs).value, t', d)
    ensures Exec(s, evs).value.ctxs[d] == s.ctxs[d] && WellShaped(Exec(s, evs).value)
    decreases |evs|
  {
    hide Step, WellShaped, Like;
    if evs != [] {
      var tm := Exec(t, Front(evs)).value;
      LikeRun(s, t, d, Front(evs), tm);
      EvolvesPool(tm, Last(evs));
      assert Last(evs) == evs[|evs| - 1];
      LikeStep(Exec(s, Front(evs)).value, tm, d, Last(evs));
    }
  }

  lemma {:induction false} ExecAppend(s: Sys, a: seq<Event>, b: seq<Event>, t: Sys)
    requires Exec(s, a) == Some(t)
    ensures Exec(s, a + b) == Exec(t, b)
    decreases |b|
  {
    hide Step;
    if b == [] {
      assert a + b == a;
    } else {
      assert Front(a + b) == a + Front(b) && Last(a + b) == Last(b);
      ExecAppend(s, a, Front(b), t);
    }
  }

  lemma ExecOne(s: Sys, e: Event)
    requires WellShaped(s)
    ensures Exec(s, [e]) == Step(s, e)
  {
    hide Step;
    assert Exec(s, []) == Some(s);
    ExecSnoc(s, [], e, s);
    assert [] + [e] == [e];
  }

  // ---------------------------------------------------------------- inconsiderate claims trip an assert

  /** A drained slot that a context outside the accounting still means: its next event is a use after free. */
  lemma Strand(s: Sys, t: Sys, d: nat, i: nat, q: int) returns (evs: seq<Event>)
    requires WellShaped(s) && Like(s, t, d) && Inv(t, 0, 0) && WellShaped(t) && Sinking(t, i, q)
    requires t.ctxs[d].Idle? && s.ctxs[d].At? && s.ctxs[d].i == i && s.ctxs[d].q == q
    ensures Exec(s, evs).None?
  {
    assert Exec(t, []) == Some(t);
    var drain, t' := Drain(t, [], t, 0, d, i, q);
    Drained(t', d, i, q);
    LikeRun(s, t, d, drain, t');
    var s' := Exec(s, drain).value;
    var e := Next(s.ctxs[d], d);
    evs := drain + [e];
    ExecSnoc(s, drain, e, s');
    StaleTouch(s', d, i, q);
  }

  lemma StaleTouch(s: Sys, d: nat, i: nat, q: int)
    requires WellShaped(s) && d < |s.ctxs| && s.ctxs[d].At? && s.ctxs[d].i == i && s.ctxs[d].q == q
    requires !Here(s.pool, i, q)
    ensures Step(s, Next(s.ctxs[d], d)).None?
  {
  }

  /** As if the creator had committed without enqueuing. */
  lemma SilentCommit(s: Sys, d: nat)
    requires Inv(s, 0, 0) && d < |s.ctxs| && s.ctxs[d].At? && (s.ctxs[d].pc.Creating? || s.ctxs[d].pc.Cleaning?)
    ensures s.ctxs[d].i < |s.ledger| && Inv(Put(Mark(s, s.ctxs[d].i, Committed), d, Idle), 0, 0)
  {
    var i := s.ctxs[d].i;
    assert CtxOk(s, s.ctxs[d]) && SlotOk(s, i);
    AnySlot(s, 0, i);
    var t := Put(Mark(s, i, Committed), d, Idle);
    Shift(s, t, d, i, 0, 0);
    AnySlot(t, i, 0);
  }

  lemma {:induction false} SomeOwner(xs: seq<Ctx>, j: nat) returns (c: nat)
    requires SumOwns(xs, j) > 0
    ensures c < |xs| && Owns(xs[c], j) == 1
  {
    if Owns(xs[0], j) == 1 {
      c := 0;
    } else {
      c := SomeOwner(xs[1..], j);
      c := c + 1;
    }
  }

  /** The slot a claim event is about, and whether the event does anything. */
  ghost predicate ClaimsSlot(s: Sys, e: Event, i: nat)
    requires WellShaped(s)
  {
    || (e.Claim? && At?(s, e.c, Looking) && s.ctxs[e.c].i == i && s.pool.T[i].state == Terminated)
    || (e.HaltClaim? && Idle?(s, e.c) && Published(s.pool, e.pid) == i)
  }

  lemma Inconsiderate(s: Sys, e: Event) returns (i: nat)
    requires WellShaped(s) && !Considerate(s, e)
    ensures i < |s.pool.T| && ClaimsSlot(s, e, i) && !Started(s, i)
  {
    i := if e.Claim? then s.ctxs[e.c].i else Published(s.pool, e.pid);
  }

  /** A slot that never started is neither queued nor run. */
  lemma NeverStarted(s: Sys, i: nat)
    requires Inv(s, 0, 0) && i < |s.pool.T| == |s.ledger| && s.pool.T[i].alive && !Started(s, i)
    ensures !s.pool.T[i].onQueue && NoRunner(s, i) && !s.pool.T[i].reaped
        && (s.ledger[i].Fresh? || s.ledger[i].Dropped?)
  {
    SlotFact(s, i);
    forall b | 0 <= b < |s.ctxs| ensures !RunsOn(s.ctxs[b], i) {
      CtxFact(s, b);
    }
  }

  lemma ClaimedAlive(s: Sys, e: Event, i: nat)
    requires Inv(s, 0, 0) && WellShaped(s) && ClaimsSlot(s, e, i)
    ensures i < |s.pool.T| && s.pool.T[i].alive && (e.Claim? ==> s.ctxs[e.c].q == s.pool.T[i].createSeq)
  {
    if e.Claim? { CtxFact(s, e.c); } else { PublishedAlive(s, e.pid, 0); }
  }

  /** Claiming a process its creator still holds: the creator's next step finds the block gone. */
  lemma TripCreator(s: Sys, e: Event, i: nat) returns (later: seq<Event>)
    requires Inv(s, 0, 0) && WellShaped(s) && ClaimsSlot(s, e, i) && i < |s.pool.T| == |s.ledger| && s.ledger[i].Fresh?
    requires s.pool.T[i].alive && !Started(s, i)
    ensures Step(s, e).Some? && Exec(Step(s, e).value, later).None?
  {
    ClaimedAlive(s, e, i);
    NeverStarted(s, i);
    var d := SomeOwner(s.ctxs, i);
    CtxFact(s, d);
    SilentCommit(s, d);
    var t := Put(Mark(s, i, Committed), d, Idle);
    InvShape(t, 0, 0);
    assert Like(s, t, d) && e.c != d;
    assert ClaimsSlot(t, e, i) && NoRunner(t, i);
    hide Inv, Step, Exec;
    StepKept(t, e);
    LikeClaim(s, t, d, e);
    LikeShape(Step(s, e).value, Step(t, e).value, d);
    var q := s.pool.T[i].createSeq;
    ClaimSinks(t, e, i);
    later := Strand(Step(s, e).value, Step(t, e).value, d, i, q);
  }

  lemma ClaimSinks(t: Sys, e: Event, i: nat)
    requires WellShaped(t) && ClaimsSlot(t, e, i) && i < |t.pool.T| && Step(t, e).Some?
    requires t.pool.T[i].alive && !t.pool.T[i].reaped && !t.pool.T[i].onQueue && NoRunner(t, i)
    requires e.Claim? ==> t.ctxs[e.c].q == t.pool.T[i].createSeq
    ensures Sinking(Step(t, e).value, i, t.pool.T[i].createSeq)
    ensures Step(t, e).value.ctxs == t.ctxs[e.c := Step(t, e).value.ctxs[e.c]]
  {
    var t' := Step(t, e).value;
    forall b | 0 <= b < |t'.ctxs| ensures !RunsOn(t'.ctxs[b], i) {
      assert !RunsOn(t.ctxs[b], i);
    }
  }

  lemma RaiseFlag(s: Sys, c: nat, i: nat)
    requires Inv(s, 0, 0) && c < |s.ctxs| && i < |s.pool.T| == |s.ledger| && s.ledger[i].Dropped?
    ensures Inv(s.(pool := SetReaped(s.pool, i)), 0, 0)
  {
    var t := s.(pool := SetReaped(s.pool, i));
    AnySlot(s, 0, i);
    assert t.ledger == s.ledger[i := t.ledger[i]] && t.ctxs == s.ctxs[c := t.ctxs[c]];
    CtxFact(s, c);
    SlotFact(s, i);
    assert CtxOk(t, t.ctxs[c]);
    Shift(s, t, c, i, 0, 0);
    AnySlot(t, i, 0);
  }

  /** Claiming a process whose creation reference is already gone drops somebody else's reference. */
  lemma TripDropped(s: Sys, e: Event, i: nat) returns (later: seq<Event>)
    requires Inv(s, 0, 0) && WellShaped(s) && ClaimsSlot(s, e, i) && i < |s.pool.T| == |s.ledger|
        && s.ledger[i].Dropped?
    requires s.pool.T[i].alive && !Started(s, i)
    ensures Step(s, e).Some? && Exec(Step(s, e).value, later).None?
  {
    NeverStarted(s, i);
    var q := s.pool.T[i].createSeq;
    var t := s.(pool := SetReaped(s.pool, i));
    RaiseFlag(s, e.c, i);
    InvShape(t, 0, 0);
    assert Sinking(t, i, q);
    ClaimedAlive(s, e, i);
    if e.HaltClaim? {
      TripHalt(s, e, i);
      later := Strand(Step(s, e).value, t, e.c, i, q);
    } else {
      later := TripReaper(s, e.c, i);
    }
  }

  lemma TripHalt(s: Sys, e: Event, i: nat)
    requires WellShaped(s) && e.HaltClaim? && ClaimsSlot(s, e, i) && i < |s.pool.T| && !s.pool.T[i].reaped
    ensures var t := s.(pool := SetReaped(s.pool, i));
      && Step(s, e).Some? && WellShaped(Step(s, e).value) && Like(Step(s, e).value, t, e.c)
      && Step(s, e).value.ctxs[e.c] == At(HaltWon, i, s.pool.T[i].createSeq)
  {
    var s' := Step(s, e).value;
    forall c | 0 <= c < |s'.ctxs| ensures InRange(s'.ctxs[c], |s'.pool.T|) {
      assert InRange(s.ctxs[c], |s.pool.T|);
    }
  }

  lemma TripReaper(s: Sys, c: nat, i: nat) returns (later: seq<Event>)
    requires WellShaped(s) && ClaimsSlot(s, Claim(c), i) && i < |s.pool.T| && !s.pool.T[i].reaped
    requires Here(s.pool, i, s.ctxs[c].q)
    requires var t := s.(pool := SetReaped(s.pool, i));
      Inv(t, 0, 0) && WellShaped(t) && Sinking(t, i, s.ctxs[c].q)
    ensures Step(s, Claim(c)).Some? && Exec(Step(s, Claim(c)).value, later).None?
  {
    hide Inv, Step, Exec;
    var t, q := s.(pool := SetReaped(s.pool, i)), s.ctxs[c].q;
    assert Next(t.ctxs[c], c) == Release(c);
    SinkStep(t, c, i, q);
    var t1 := Step(t, Release(c)).value;
    StolenDrop(s, c, i);
    var s1 := Step(s, Claim(c)).value;
    var s2 := Step(s1, DropCreation(c)).value;
    LikeShape(s2, t1, c);
    var evs := Strand(s2, t1, c, i, q);
    ExecOne(s1, DropCreation(c));
    ExecAppend(s1, [DropCreation(c)], evs, s2);
    later := [DropCreation(c)] + evs;
  }

  /** The winner drops its own lookup reference in place of the creation reference. */
  lemma StolenDrop(s: Sys, c: nat, i: nat)
    requires WellShaped(s) && ClaimsSlot(s, Claim(c), i) && i < |s.pool.T| && !s.pool.T[i].reaped
    requires Here(s.pool, i, s.ctxs[c].q)
    requires Step(s.(pool := SetReaped(s.pool, i)), Release(c)).Some?
    ensures Step(s, Claim(c)).Some? && WellShaped(Step(s, Claim(c)).value)
    ensures var s2 := Step(Step(s, Claim(c)).value, DropCreation(c));
      && s2.Some? && Like(s2.value, Step(s.(pool := SetReaped(s.pool, i)), Release(c)).value, c)
      && s2.value.ctxs[c] == At(Settled, i, s.ctxs[c].q)
    ensures Step(s.(pool := SetReaped(s.pool, i)), Release(c)).value.ctxs[c].Idle?
  {
    hide Unref;
    var s1 := Step(s, Claim(c)).value;
    forall b | 0 <= b < |s1.ctxs| ensures InRange(s1.ctxs[b], |s1.pool.T|) {
      assert InRange(s.ctxs[b], |s.pool.T|);
    }
  }

  /** So the condition of Safety is needed: whatever considerate run came before, a claim that is not
      considerate has a continuation that trips an assert. */
  lemma InconsiderateTrips(n: nat, maxp: nat, maxPid: nat, evs: seq<Event>, e: Event) returns (later: seq<Event>)
    requires AllConsiderate(Boot(n, maxp, maxPid), evs) && !AllConsiderate(Boot(n, maxp, maxPid), evs + [e])
    ensures Exec(Boot(n, maxp, maxPid), evs + [e] + later).None?
  {
    var b := Boot(n, maxp, maxPid);
    Safety(n, maxp, maxPid, evs);
    assert Front(evs + [e]) == evs && Last(evs + [e]) == e;
    var s := Exec(b, evs).value;
    var i := Inconsiderate(s, e);
    ClaimedAlive(s, e, i);
    NeverStarted(s, i);
    if s.ledger[i].Fresh? {
      later := TripCreator(s, e, i);
    } else {
      later := TripDropped(s, e, i);
    }
    ExecSnoc(b, evs, e, s);
    ExecAppend(b, evs + [e], later, Step(s, e).value);
  }

  // ---------------------------------------------------------------- impatient claims free a running block

  /** The event is b's own drop of its running reference on slot i, and frees the block. */
  ghost predicate SelfFrees(s: Sys, e: Event, b: nat, i: nat) {
    && WellShaped(s) && e.c == b && DropsOwnRun(s, e, i) && Step(s, e).Some?
    && i < |s.pool.T| == |Step(s, e).value.pool.T| && s.pool.T[i].alive && !Step(s, e).value.pool.T[i].alive
  }

  /** Once nobody else holds the slot, the context that runs it goes on to free it. */
  lemma {:induction false} RunOut(s0: Sys, pre: seq<Event>, s: Sys, b: nat, i: nat, q: int)
    returns (evs: seq<Event>, e: Event)
    requires Exec(s0, pre) == Some(s) && Inv(s, 0, 0) && WellShaped(s) && Sinking(s, i, q)
    requires b < |s.ctxs| && OnlyHolder(s, b, i) && RunsOn(s.ctxs[b], i)
    ensures pre <= evs && Exec(s0, evs).Some? && SelfFrees(Exec(s0, evs).value, e, b, i)
    decreases if b < |s.ctxs| then Rank(s.ctxs[b], i) else 0
  {
    hide Inv, Step, Exec, Sinking, WellShaped;
    Drained(s, b, i, q);
    CtxFact(s, b);
    e := Next(s.ctxs[b], b);
    RunnerNext(s, b, i);
    if DropsOwnRun(s, e, i) && Held(s.ctxs[b], i) == 1 {
      SelfFreeExactly(s, e, i);
      evs := pre;
    } else {
      SinkStep(s, b, i, q);
      ExecSnoc(s0, pre, e, s);
      RunsOnStill(s, b, i);
      evs, e := RunOut(s0, pre + [e], Step(s, e).value, b, i, q);
    }
  }

  lemma RunnerNext(s: Sys, b: nat, i: nat)
    requires |s.pool.T| == |s.ledger| && b < |s.ctxs| && CtxOk(s, s.ctxs[b]) && RunsOn(s.ctxs[b], i)
    ensures Rank(s.ctxs[b], i) > 0 && Held(s.ctxs[b], i) > 0 && Next(s.ctxs[b], b).c == b && i < |s.pool.T|
  {
  }

  lemma RunsOnStill(s: Sys, b: nat, i: nat)
    requires WellShaped(s) && b < |s.ctxs| && RunsOn(s.ctxs[b], i) && Step(s, Next(s.ctxs[b], b)).Some?
    requires !(DropsOwnRun(s, Next(s.ctxs[b], b), i) && Held(s.ctxs[b], i) == 1)
    ensures b < |Step(s, Next(s.ctxs[b], b)).value.ctxs| && RunsOn(Step(s, Next(s.ctxs[b], b)).value.ctxs[b], i)
  {
    hide Ref, Unref, SchedRemove, PickFrom, Reparent, SetState;
    var e := Next(s.ctxs[b], b);
    if e.Switch? { assert Step(s, e) == StepSwitch(s, b); }
  }

  lemma ClaimEffect(s: Sys, c: nat, i: nat)
    requires WellShaped(s) && At?(s, c, Looking) && s.ctxs[c].i == i && Here(s.pool, i, s.ctxs[c].q)
    requires s.pool.T[i].state == Terminated && !s.pool.T[i].reaped
    ensures Step(s, Claim(c)).Some?
    ensures var t := Step(s, Claim(c)).value;
      && Steady(s.pool, t.pool, i) && t.pool.T[i].alive && t.pool.T[i].state == Terminated
      && t.ctxs == s.ctxs[c := At(Won, i, s.ctxs[c].q)] && |t.ledger| == |s.ledger| && t.ledger[i] == Claimed
  {
  }

  lemma DropEffect(s: Sys, c: nat, i: nat)
    requires WellShaped(s) && At?(s, c, Won) && s.ctxs[c].i == i && Step(s, DropCreation(c)).Some?
    ensures var t := Step(s, DropCreation(c)).value;
      t.ctxs == s.ctxs[c := At(Settled, i, s.ctxs[c].q)] && i < |t.ledger| && t.ledger[i] == Dropped
  {
    hide Unref;
  }

  lemma UnlinkEffect(s: Sys, c: nat, i: nat)
    requires WellShaped(s) && At?(s, c, Settled) && s.ctxs[c].i == i && Step(s, Unlink(c)).Some?
    ensures var t := Step(s, Unlink(c)).value;
      t.ctxs == s.ctxs[c := At(Removed, i, s.ctxs[c].q)] && i < |t.pool.T| && !t.pool.T[i].onQueue
          && t.ledger == s.ledger
  {
  }

  lemma ReleaseEffect(s: Sys, c: nat, i: nat)
    requires WellShaped(s) && At?(s, c, Removed) && s.ctxs[c].i == i && Step(s, DropLookup(c)).Some?
    ensures var t := Step(s, DropLookup(c)).value; t.ctxs == s.ctxs[c := Idle] && t.ledger == s.ledger
  {
    hide Unref;
  }

  /** A reaper that wins its claim on a process and finishes leaves it off the queue and unowned. */
  lemma ReapThrough(s: Sys, c: nat) returns (evs: seq<Event>, t: Sys)
    requires Inv(s, 0, 0) && WellShaped(s) && At?(s, c, Looking)
    requires s.pool.T[s.ctxs[c].i].state == Terminated && s.ledger[s.ctxs[c].i].Committed?
    ensures Exec(s, [Claim(c)] + evs) == Some(t) && Inv(t, 0, 0) && WellShaped(t)
    ensures Sinking(t, s.ctxs[c].i, s.ctxs[c].q) && t.ctxs == s.ctxs[c := Idle]
  {
    var i, q := s.ctxs[c].i, s.ctxs[c].q;
    hide Inv, Step, Exec, WellShaped;
    CtxFact(s, c);
    SlotFact(s, i);
    ClaimEffect(s, c, i);
    StepKept(s, Claim(c));
    var s1 := Step(s, Claim(c)).value;
    CtxFact(s1, c);
    StepKept(s1, DropCreation(c));
    SankDrop(s1, c, i);
    DropEffect(s1, c, i);
    var s2 := Step(s1, DropCreation(c)).value;
    CtxFact(s2, c);
    var s3;
    s3, t := LetGo(s2, c, i, q);
    evs := [DropCreation(c), Unlink(c), DropLookup(c)];
    FourSteps(s, Claim(c), DropCreation(c), Unlink(c), DropLookup(c), s1, s2, s3);
    assert [Claim(c)] + evs == [Claim(c), DropCreation(c), Unlink(c), DropLookup(c)];
    assert t.ctxs == s.ctxs[c := Idle];
  }

  /** The second half: off the queue, then the lookup reference. */
  lemma LetGo(s2: Sys, c: nat, i: nat, q: int) returns (s3: Sys, t: Sys)
    requires Inv(s2, 0, 0) && WellShaped(s2) && At?(s2, c, Settled) && s2.ctxs[c].i == i
    requires i < |s2.pool.T| == |s2.ledger| && s2.pool.T[i].createSeq == q && s2.ledger[i] == Dropped
    requires s2.pool.T[i].alive ==> s2.pool.T[i].state == Terminated
    ensures Step(s2, Unlink(c)) == Some(s3) && WellShaped(s3) && Step(s3, DropLookup(c)) == Some(t)
    ensures Inv(t, 0, 0) && WellShaped(t) && Sinking(t, i, q) && t.ctxs == s2.ctxs[c := Idle]
  {
    hide Inv, Step, WellShaped;
    CtxFact(s2, c);
    StepKept(s2, Unlink(c));
    SankDrop(s2, c, i);
    UnlinkEffect(s2, c, i);
    s3 := Step(s2, Unlink(c)).value;
    CtxFact(s3, c);
    StepKept(s3, DropLookup(c));
    SankUnref(s3, c, i);
    ReleaseEffect(s3, c, i);
    t := Step(s3, DropLookup(c)).value;
  }

  lemma FourSteps(s: Sys, e1: Event, e2: Event, e3: Event, e4: Event, s1: Sys, s2: Sys, s3: Sys)
    requires WellShaped(s) && Step(s, e1) == Some(s1) && WellShaped(s1) && Step(s1, e2) == Some(s2)
    requires WellShaped(s2) && Step(s2, e3) == Some(s3) && WellShaped(s3)
    ensures Exec(s, [e1, e2, e3, e4]) == Step(s3, e4)
  {
    hide Step, WellShaped, Exec;
    assert [e1] + [e2] == [e1, e2] && [e1, e2] + [e3] == [e1, e2, e3] && [e1, e2, e3] + [e4] == [e1, e2, e3, e4];
    ExecOne(s, e1);
    ExecSnoc(s, [e1], e2, s1);
    ExecSnoc(s, [e1, e2], e3, s2);
    ExecSnoc(s, [e1, e2, e3], e4, s3);
  }

  /** So patience is needed: whatever considerate run came before, a reaper that wins its claim while a
      context runs the process has a continuation in which that context's own drop frees the block. */
  lemma ImpatientFrees(n: nat, maxp: nat, maxPid: nat, evs: seq<Event>, c: nat, b: nat)
    returns (later: seq<Event>, e: Event)
    requires AllConsiderate(Boot(n, maxp, maxPid), evs) && Exec(Boot(n, maxp, maxPid), evs).Some?
    requires var s := Exec(Boot(n, maxp, maxPid), evs).value;
      && WellShaped(s) && At?(s, c, Looking) && Considerate(s, Claim(c)) && b < |s.ctxs|
      && var i := s.ctxs[c].i;
         s.pool.T[i].state == Terminated && !s.pool.T[i].reaped && RunsOn(s.ctxs[b], i)
    ensures var r := Exec(Boot(n, maxp, maxPid), evs + ([Claim(c)] + later));
      r.Some? && SelfFrees(r.value, e, b, Exec(Boot(n, maxp, maxPid), evs).value.ctxs[c].i)
  {
    hide Inv, Step, Exec, Sinking, Boot, AllConsiderate, SelfFrees, WellShaped;
    var boot := Boot(n, maxp, maxPid);
    Safety(n, maxp, maxPid, evs);
    var s := Exec(boot, evs).value;
    var i, q := s.ctxs[c].i, s.ctxs[c].q;
    var reap, s1 := ReapThrough(s, c);
    var drained, s2 := Drain(s, [Claim(c)] + reap, s1, 0, b, i, q);
    var all, last := RunOut(s, drained, s2, b, i, q);
    e := last;
    later := all[1..];
    assert all == [Claim(c)] + later;
    ExecAppend(boot, evs, all, s);
  }
}
