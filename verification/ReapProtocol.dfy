/** Every interleaving of the reap protocol.

    Any number of contexts (CPUs, reapers, forking parents) act on one shared pool.
    A context is a small program counter plus the incarnation it works on; one event
    is one atomic action of one context.  The claim exchange and the unref that
    follows it are separate events, and so are the two halves of process_destroy and
    of yield.  `Step` answers `None` where the C code would trip an assert or where a
    context would touch a control block that is no longer its incarnation. */
module ReapProtocol {
  import opened Common
  import opened ProcessPool

  /** What a context is in the middle of. */
  datatype Pc =
    | Creating   // proc_create returned; the fork may still fail
    | Cleaning   // fork failed, sched_remove done; the creation unref is next
    | OnCpu      // running: owns a running ref handed over by pick_next
    | Yielding   // requeued; the running unref is next
    | Exiting    // marked TERMINATED; sched_remove is next
    | Dying      // off the queue; pick_next is next
    | Looking    // get_by_pid returned: owns a lookup ref
    | Won        // the claim exchange returned 0: the creation unref is next
    | Settled    // the claim is over; process_destroy is next
    | Removed    // sched_remove of process_destroy done; the lookup unref is next
    | HaltWon    // shutdown won the claim without a lookup ref

  /** `q` is the createSeq of the incarnation the context means by index `i`. */
  datatype Ctx =
    | Idle
    | At(pc: Pc, i: nat, q: int)
    | Switching(i: nat, q: int, next: Option<(nat, int)>)

  /** Where the creation reference of a slot is. */
  datatype Creation =
    | Fresh       // with the creator, who may still clean up
    | Committed   // with the process, until a claim
    | Claimed     // with the context that won the exchange
    | Dropped

  datatype Sys = Sys(pool: Pool, ctxs: seq<Ctx>, ledger: seq<Creation>)

  datatype Event =
    | Create(c: nat, pid: int, parent: int)
    | Commit(c: nat)
    | Abandon(c: nat)
    | Cleanup(c: nat)
    | Pick(c: nat)
    | Requeue(c: nat)
    | DropRunning(c: nat)
    | Exit(c: nat)
    | Unqueue(c: nat)
    | Switch(c: nat)
    | Bury(c: nat)
    | Lookup(c: nat, pid: int)
    | LookupSeq(c: nat, pid: int, q: int)
    | Release(c: nat)
    | Kill(c: nat)
    | Claim(c: nat)
    | DropCreation(c: nat)
    | Unlink(c: nat)
    | DropLookup(c: nat)
    | BareDestroy(c: nat)                // the baseline reaper: process_destroy without a claim
    | HaltClaim(c: nat, pid: int)
    | HaltDrop(c: nat)

  // ---------------------------------------------------------------- steps

  ghost predicate WellShaped(s: Sys) {
    && Shaped(s.pool)
    && |s.ledger| == |s.pool.T|
    && forall c :: 0 <= c < |s.ctxs| ==> InRange(s.ctxs[c], |s.pool.T|)
  }

  ghost predicate InRange(x: Ctx, n: nat) {
    match x
    case Idle => true
    case At(_, i, _) => i < n
    case Switching(i, _, next) => i < n && (next.Some? ==> next.value.0 < n)
  }

  /** The incarnation q is the one that lives in slot i. */
  predicate Here(p: Pool, i: nat, q: int) {
    i < |p.T| && p.T[i].alive && p.T[i].createSeq == q
  }

  /** The process has left its creator's hands: it was enqueued or a reaper took it over. */
  predicate Started(s: Sys, i: nat)
    requires i < |s.pool.T| == |s.ledger|
  {
    s.ledger[i] == Committed || s.pool.T[i].reaped
  }

  /** A claim spares processes whose creation reference is still with their creator, or was already
      given back by a failed fork. */
  ghost predicate Considerate(s: Sys, e: Event)
    requires WellShaped(s)
  {
    && (e.Claim? && At?(s, e.c, Looking) && s.pool.T[s.ctxs[e.c].i].state == Terminated ==> Started(s, s.ctxs[e.c].i))
    && (e.HaltClaim? && Idle?(s, e.c) && Published(s.pool, e.pid) >= 0 ==> Started(s, Published(s.pool, e.pid)))
  }

  function Put(s: Sys, c: nat, x: Ctx): Sys
    requires c < |s.ctxs|
  {
    s.(ctxs := s.ctxs[c := x])
  }

  function Mark(s: Sys, i: nat, d: Creation): Sys
    requires i < |s.ledger|
  {
    s.(ledger := s.ledger[i := d])
  }

  /** Continue with the pool an operation left behind, or fail with it. */
  function With(s: Sys, r: Option<Pool>): Option<Sys> {
    match r
    case None => None
    case Some(p) => Some(s.(pool := p))
  }

  ghost predicate At?(s: Sys, c: nat, pc: Pc) {
    c < |s.ctxs| && s.ctxs[c].At? && s.ctxs[c].pc == pc
  }

  ghost predicate Idle?(s: Sys, c: nat) {
    c < |s.ctxs| && s.ctxs[c].Idle?
  }

  /** One event.  A disabled event changes nothing. */
  ghost function Step(s: Sys, e: Event): (r: Option<Sys>)
    requires WellShaped(s)
  {
    match e
    case Create(c, pid, parent) =>
      if !Idle?(s, c) || !CanCreate(s.pool, pid) then Some(s)
      else
        var i := FirstFree(s.pool.T);
        var p := CreateAt(s.pool, i, pid, parent);
        Some(Put(Mark(s.(pool := p), i, Fresh), c, At(Creating, i, p.gSeq)))
    case Commit(c) =>
      if !At?(s, c, Creating) then Some(s)
      else Touch(s, c, StepCommit(s, c))
    case Abandon(c) =>
      if !At?(s, c, Creating) then Some(s)
      else Touch(s, c, With(Put(s, c, s.ctxs[c].(pc := Cleaning)), SchedRemove(s.pool, s.ctxs[c].i)))
    case Cleanup(c) =>
      if !At?(s, c, Cleaning) then Some(s)
      else Touch(s, c, With(Put(Mark(s, s.ctxs[c].i, Dropped), c, Idle), Unref(s.pool, s.ctxs[c].i)))
    case Pick(c) =>
      if !Idle?(s, c) then Some(s) else StepPick(s, c)
    case Requeue(c) =>
      if !At?(s, c, OnCpu) then Some(s)
      else Touch(s, c, With(Put(s, c, s.ctxs[c].(pc := Yielding)), SchedAdd(s.pool, s.ctxs[c].i)))
    case DropRunning(c) =>
      if !At?(s, c, Yielding) then Some(s) else Touch(s, c, StepUnref(s, c, Idle))
    case Exit(c) =>
      if !At?(s, c, OnCpu) then Some(s)
      else
        var i := s.ctxs[c].i;
        var p := Reparent(s.pool, s.pool.T[i].pid);
        Touch(s, c, Some(Put(s.(pool := SetState(p, i, Terminated)), c, s.ctxs[c].(pc := Exiting))))
    case Unqueue(c) =>
      if !At?(s, c, Exiting) then Some(s)
      else Touch(s, c, With(Put(s, c, s.ctxs[c].(pc := Dying)), SchedRemove(s.pool, s.ctxs[c].i)))
    case Switch(c) =>
      if !At?(s, c, Dying) then Some(s) else Touch(s, c, StepSwitch(s, c))
    case Bury(c) =>
      if c >= |s.ctxs| || !s.ctxs[c].Switching? then Some(s)
      else
        var x := s.ctxs[c];
        if !Here(s.pool, x.i, x.q) then None
        else StepUnref(s, c, if x.next.Some? then At(OnCpu, x.next.value.0, x.next.value.1) else Idle)
    case Lookup(c, pid) =>
      if !Idle?(s, c) then Some(s) else StepLookup(s, c, Published(s.pool, pid))
    case LookupSeq(c, pid, q) =>
      if !Idle?(s, c) then Some(s) else StepLookup(s, c, PublishedSeq(s.pool, pid, q))
    case Release(c) =>
      if !At?(s, c, Looking) then Some(s) else Touch(s, c, StepUnref(s, c, Idle))
    case Kill(c) =>
      if !At?(s, c, Looking) then Some(s)
      else Touch(s, c, Some(s.(pool := SetState(s.pool, s.ctxs[c].i, Terminated))))
    case Claim(c) =>
      if !At?(s, c, Looking) || s.pool.T[s.ctxs[c].i].state != Terminated then Some(s)
      else Touch(s, c, Some(StepClaim(s, c, s.ctxs[c].i, s.ctxs[c].(pc := Won), s.ctxs[c].(pc := Settled))))
    case BareDestroy(c) =>
      if !At?(s, c, Looking) || s.pool.T[s.ctxs[c].i].state != Terminated then Some(s)
      else Touch(s, c, Some(Put(s, c, s.ctxs[c].(pc := Settled))))
    case DropCreation(c) =>
      if !At?(s, c, Won) then Some(s)
      else Touch(s, c, With(Put(Mark(s, s.ctxs[c].i, Dropped), c, s.ctxs[c].(pc := Settled)),
          Unref(s.pool, s.ctxs[c].i)))
    case Unlink(c) =>
      if !At?(s, c, Settled) then Some(s)
      else Touch(s, c, With(Put(s, c, s.ctxs[c].(pc := Removed)), SchedRemove(s.pool, s.ctxs[c].i)))
    case DropLookup(c) =>
      if !At?(s, c, Removed) then Some(s) else Touch(s, c, StepUnref(s, c, Idle))
    case HaltClaim(c, pid) =>
      var i := Published(s.pool, pid);
      if !Idle?(s, c) || i < 0 then Some(s)
      else Some(StepClaim(s, c, i, At(HaltWon, i, s.pool.T[i].createSeq), Idle))
    case HaltDrop(c) =>
      if !At?(s, c, HaltWon) then Some(s)
      else Touch(s, c, With(Put(Mark(s, s.ctxs[c].i, Dropped), c, Idle), Unref(s.pool, s.ctxs[c].i)))
  }

  /** Any access through a stale index is a use after free. */
  ghost function Touch(s: Sys, c: nat, r: Option<Sys>): Option<Sys>
    requires c < |s.ctxs| && s.ctxs[c].At?
  {
    if Here(s.pool, s.ctxs[c].i, s.ctxs[c].q) then r else None
  }

  ghost function StepUnref(s: Sys, c: nat, x: Ctx): Option<Sys>
    requires WellShaped(s) && c < |s.ctxs| && !s.ctxs[c].Idle?
  {
    With(Put(s, c, x), Unref(s.pool, s.ctxs[c].i))
  }

  /** The fork succeeded: enqueue the child and let go of it. */
  ghost function StepCommit(s: Sys, c: nat): Option<Sys>
    requires WellShaped(s) && At?(s, c, Creating)
  {
    With(Put(Mark(s, s.ctxs[c].i, Committed), c, Idle), SchedAdd(s.pool, s.ctxs[c].i))
  }

  ghost function StepPick(s: Sys, c: nat): Option<Sys>
    requires WellShaped(s) && c < |s.ctxs|
  {
    PickShape(s.pool, 0);
    match PickFrom(s.pool, 0)
    case None => None
    case Some((p, next)) =>
      if next < 0 then Some(s.(pool := p))
      else Some(Put(s.(pool := SetState(p, next, Running)), c, At(OnCpu, next, p.T[next].createSeq)))
  }

  ghost function StepSwitch(s: Sys, c: nat): Option<Sys>
    requires WellShaped(s) && At?(s, c, Dying)
  {
    PickShape(s.pool, 0);
    var x := s.ctxs[c];
    match PickFrom(s.pool, 0)
    case None => None
    case Some((p, next)) =>
      if next < 0 then Some(Put(s.(pool := p), c, Switching(x.i, x.q, None)))
      else Some(Put(s.(pool := SetState(p, next, Running)), c,
                    Switching(x.i, x.q, Some((next, p.T[next].createSeq)))))
  }

  ghost function StepLookup(s: Sys, c: nat, i: int): Option<Sys>
    requires WellShaped(s) && c < |s.ctxs| && i < |s.pool.T|
  {
    if i < 0 then Some(s)
    else With(Put(s, c, At(Looking, i, s.pool.T[i].createSeq)), Ref(s.pool, i))
  }

  /** The atomic exchange on `reaped`. */
  ghost function StepClaim(s: Sys, c: nat, i: nat, won: Ctx, lost: Ctx): Sys
    requires i < |s.pool.T| == |s.ledger| && c < |s.ctxs|
  {
    if s.pool.T[i].reaped then Put(s, c, lost)
    else Put(Mark(s.(pool := SetReaped(s.pool, i)), i, Claimed), c, won)
  }

  // ---------------------------------------------------------------- accounting

  predicate HoldsRef(pc: Pc) {
    pc != Creating && pc != Cleaning && pc != HaltWon
  }

  /** References on slot j, other than the creation reference, that a context has to give back. */
  function Held(x: Ctx, j: nat): nat {
    match x
    case Idle => 0
    case At(pc, i, _) => if i == j && HoldsRef(pc) then 1 else 0
    case Switching(i, _, next) =>
      (if i == j then 1 else 0) + (if next.Some? && next.value.0 == j then 1 else 0)
  }

  /** 1 when the context is the one that must drop slot j's creation reference. */
  function Owns(x: Ctx, j: nat): nat {
    if x.At? && x.i == j && (x.pc.Creating? || x.pc.Cleaning? || x.pc.Won? || x.pc.HaltWon?) then 1 else 0
  }

  predicate RunsOn(x: Ctx, j: nat) {
    match x
    case Idle => false
    case At(pc, i, _) => i == j && (pc.OnCpu? || pc.Yielding? || pc.Exiting? || pc.Dying?)
    case Switching(i, _, next) => i == j || (next.Some? && next.value.0 == j)
  }

  function SumHeld(xs: seq<Ctx>, j: nat): nat {
    if xs == [] then 0 else Held(xs[0], j) + SumHeld(xs[1..], j)
  }

  function SumOwns(xs: seq<Ctx>, j: nat): nat {
    if xs == [] then 0 else Owns(xs[0], j) + SumOwns(xs[1..], j)
  }

  function AliveCount(T: seq<Proc>): nat {
    if T == [] then 0 else (if T[0].alive then 1 else 0) + AliveCount(T[1..])
  }

  /** creation + queue + running + lookup references outstanding on slot j. */
  function Owed(s: Sys, j: nat): nat
    requires j < |s.pool.T| == |s.ledger|
  {
    (if s.ledger[j] != Dropped then 1 else 0)
    + (if s.pool.T[j].onQueue then 1 else 0)
    + SumHeld(s.ctxs, j)
  }

  // ---------------------------------------------------------------- invariant

  /** Every count is exact, except that slot i carries k references more than are owed.
      Between the two halves of an event k is 1; in every reachable state it is 0. */
  ghost predicate Balanced(s: Sys, i: nat, k: nat)
    requires |s.pool.T| == |s.ledger|
  {
    forall j :: 0 <= j < |s.pool.T| ==>
      && s.pool.T[j].refCount == Owed(s, j) + (if j == i then k else 0)
      && (s.pool.T[j].alive <==> s.pool.T[j].refCount > 0)
  }

  /** The PID table and the live pool are mutually inverse. */
  ghost predicate Inverse(p: Pool) {
    && Shaped(p)
    && (forall j :: 0 <= j < |p.T| && p.T[j].alive ==> PublishedAs(p, j))
    && (forall pid :: 0 <= pid < |p.table| ==> if p.table[pid] < 0 then p.tableSeq[pid] == -1
                                               else p.T[p.table[pid]].alive && p.T[p.table[pid]].pid == pid)
  }

  ghost predicate PublishedAs(p: Pool, j: nat)
    requires j < |p.T| && |p.table| == |p.tableSeq|
  {
    var q := p.T[j];
    0 <= q.pid < |p.table| && p.table[q.pid] == j && p.tableSeq[q.pid] == q.createSeq && 1 <= q.createSeq <= p.gSeq
  }

  ghost predicate UniqueSeqs(p: Pool) {
    forall j, k :: 0 <= j < k < |p.T| && p.T[j].alive && p.T[k].alive ==> p.T[j].createSeq != p.T[k].createSeq
  }

  ghost predicate SlotOk(s: Sys, j: nat)
    requires j < |s.pool.T| == |s.ledger|
  {
    s.pool.T[j].alive ==>
      && (s.ledger[j].Fresh? || s.ledger[j].Committed? ==> !s.pool.T[j].reaped)
      && (s.ledger[j].Claimed? ==> s.pool.T[j].reaped)
      && (s.pool.T[j].onQueue ==> Started(s, j))
  }

  ghost predicate CtxOk(s: Sys, x: Ctx)
    requires |s.pool.T| == |s.ledger|
  {
    match x
    case Idle => true
    case At(pc, i, q) =>
      && Here(s.pool, i, q)
      && (pc.Creating? || pc.Cleaning? ==> s.ledger[i] == Fresh)
      && (pc.Won? || pc.HaltWon? ==> s.ledger[i] == Claimed)
      && (pc.OnCpu? || pc.Yielding? || pc.Exiting? || pc.Dying? ==> Started(s, i))
    case Switching(i, q, next) =>
      && Here(s.pool, i, q) && Started(s, i)
      && (next.Some? ==> Here(s.pool, next.value.0, next.value.1) && Started(s, next.value.0))
  }

  ghost predicate OwnersOk(s: Sys)
    requires |s.pool.T| == |s.ledger|
  {
    forall j :: 0 <= j < |s.pool.T| ==>
      SumOwns(s.ctxs, j) == if s.ledger[j].Fresh? || s.ledger[j].Claimed? then 1 else 0
  }

  ghost predicate PoolOk(p: Pool) {
    && Inverse(p)
    && UniqueSeqs(p)
    && p.created == p.gSeq == p.freed + AliveCount(p.T)
  }

  ghost predicate SlotsOk(s: Sys)
    requires |s.pool.T| == |s.ledger|
  {
    forall j :: 0 <= j < |s.pool.T| ==> SlotOk(s, j)
  }

  ghost predicate CtxsOk(s: Sys)
    requires |s.pool.T| == |s.ledger|
  {
    forall c :: 0 <= c < |s.ctxs| ==> CtxOk(s, s.ctxs[c])
  }

  ghost predicate Inv(s: Sys, i: nat, k: nat) {
    && |s.ledger| == |s.pool.T|
    && PoolOk(s.pool)
    && Balanced(s, i, k)
    && SlotsOk(s)
    && CtxsOk(s)
    && OwnersOk(s)
  }

  // ---------------------------------------------------------------- counting lemmas

  lemma {:induction false} SumHeldPut(xs: seq<Ctx>, c: nat, x: Ctx, j: nat)
    requires c < |xs|
    ensures SumHeld(xs[c := x], j) == SumHeld(xs, j) - Held(xs[c], j) + Held(x, j)
    ensures SumHeld(xs, j) >= Held(xs[c], j)
  {
    if c > 0 {
      SumHeldPut(xs[1..], c - 1, x, j);
      assert xs[c := x][1..] == xs[1..][c - 1 := x];
    } else {
      assert xs[c := x][1..] == xs[1..];
    }
  }

  lemma {:induction false} SumOwnsPut(xs: seq<Ctx>, c: nat, x: Ctx, j: nat)
    requires c < |xs|
    ensures SumOwns(xs[c := x], j) == SumOwns(xs, j) - Owns(xs[c], j) + Owns(x, j)
    ensures SumOwns(xs, j) >= Owns(xs[c], j)
  {
    if c > 0 {
      SumOwnsPut(xs[1..], c - 1, x, j);
      assert xs[c := x][1..] == xs[1..][c - 1 := x];
    } else {
      assert xs[c := x][1..] == xs[1..];
    }
  }

  lemma {:induction false} AliveCountPut(T: seq<Proc>, i: nat, x: Proc)
    requires i < |T|
    ensures AliveCount(T[i := x]) ==
            AliveCount(T) - (if T[i].alive then 1 else 0) + (if x.alive then 1 else 0)
  {
    if i > 0 {
      AliveCountPut(T[1..], i - 1, x);
      assert T[i := x][1..] == T[1..][i - 1 := x];
    } else {
      assert T[i := x][1..] == T[1..];
    }
  }

  lemma AliveCountSame(T: seq<Proc>, U: seq<Proc>)
    requires |T| == |U| && forall i :: 0 <= i < |T| ==> T[i].alive == U[i].alive
    ensures AliveCount(T) == AliveCount(U)
  {
  }

  lemma AliveCountZero(T: seq<Proc>)
    requires forall i :: 0 <= i < |T| ==> !T[i].alive
    ensures AliveCount(T) == 0
  {
  }

  // ---------------------------------------------------------------- frames

  lemma InvShape(s: Sys, i: nat, k: nat)
    requires Inv(s, i, k)
    ensures WellShaped(s)
  {
    forall c | 0 <= c < |s.ctxs| ensures InRange(s.ctxs[c], |s.pool.T|) {
      assert CtxOk(s, s.ctxs[c]);
    }
  }

  /** Identity of a slot: what the PID table and the contexts know it by. */
  predicate SameIdentity(T: seq<Proc>, U: seq<Proc>) {
    |T| == |U| && forall j :: 0 <= j < |T| ==>
      T[j].pid == U[j].pid && T[j].alive == U[j].alive && T[j].createSeq == U[j].createSeq
  }

  lemma PoolKept(p: Pool, p': Pool)
    requires PoolOk(p) && SameIdentity(p.T, p'.T) && p' == p.(T := p'.T)
    ensures PoolOk(p')
  {
    AliveCountSame(p.T, p'.T);
    forall j | 0 <= j < |p'.T| && p'.T[j].alive ensures PublishedAs(p', j) {
      assert PublishedAs(p, j);
    }
  }

  lemma TeardownPool(p: Pool, i: nat)
    requires PoolOk(p) && i < |p.T| && p.T[i].alive
    ensures PoolOk(Teardown(p, i))
  {
    var p' := Teardown(p, i);
    AliveCountPut(p.T, i, p'.T[i]);
    assert PublishedAs(p, i);
    forall j | 0 <= j < |p'.T| && p'.T[j].alive ensures PublishedAs(p', j) {
      assert PublishedAs(p, j);
    }
  }

  lemma CreatePool(p: Pool, i: nat, pid: int, parent: int)
    requires PoolOk(p) && i < |p.T| && !p.T[i].alive && 0 <= pid < |p.table| && p.table[pid] == -1
    ensures PoolOk(CreateAt(p, i, pid, parent))
  {
    var p' := CreateAt(p, i, pid, parent);
    AliveCountPut(p.T, i, p'.T[i]);
    forall j | 0 <= j < |p'.T| && p'.T[j].alive ensures PublishedAs(p', j) {
      if j != i { assert PublishedAs(p, j); }
    }
    forall j, k | 0 <= j < k < |p'.T| && p'.T[j].alive && p'.T[k].alive ensures p'.T[j].createSeq != p'.T[k].createSeq {
      if j != i { assert PublishedAs(p, j); }
      if k != i { assert PublishedAs(p, k); }
    }
  }

  /** Slot facts survive when nothing new is queued, terminated or claimed; and death. */
  lemma SlotsKept(s: Sys, s': Sys)
    requires |s.pool.T| == |s.ledger| && |s'.pool.T| == |s.pool.T| && s'.ledger == s.ledger
    requires SlotsOk(s)
    requires forall j :: 0 <= j < |s.pool.T| && s'.pool.T[j].alive ==>
               && s.pool.T[j].alive && s'.pool.T[j].reaped == s.pool.T[j].reaped
               && (s'.pool.T[j].onQueue ==> s.pool.T[j].onQueue)
               && (s'.pool.T[j].state == Terminated ==> s.pool.T[j].state == Terminated)
    ensures SlotsOk(s')
  {
    forall j | 0 <= j < |s.pool.T| ensures SlotOk(s', j) {
      assert SlotOk(s, j);
    }
  }

  /** Context facts survive when identities, claims and the ledger stay. */
  lemma CtxsKept(s: Sys, s': Sys)
    requires |s.pool.T| == |s.ledger| && s'.ledger == s.ledger && s'.ctxs == s.ctxs
    requires CtxsOk(s) && SameIdentity(s.pool.T, s'.pool.T)
    requires forall j :: 0 <= j < |s.pool.T| ==> s'.pool.T[j].reaped == s.pool.T[j].reaped
    ensures CtxsOk(s')
  {
    forall c | 0 <= c < |s.ctxs| ensures CtxOk(s', s'.ctxs[c]) {
      assert CtxOk(s, s.ctxs[c]);
    }
  }

  /** A slot nobody owes anything on is not named by any context. */
  lemma Unnamed(s: Sys, i: nat)
    requires i < |s.pool.T| == |s.ledger| && OwnersOk(s)
    requires s.ledger[i] == Dropped && SumHeld(s.ctxs, i) == 0
    ensures forall c :: 0 <= c < |s.ctxs| ==> Held(s.ctxs[c], i) == 0 && Owns(s.ctxs[c], i) == 0
  {
    forall c | 0 <= c < |s.ctxs| ensures Held(s.ctxs[c], i) == 0 && Owns(s.ctxs[c], i) == 0 {
      SumHeldPut(s.ctxs, c, Idle, i);
      SumOwnsPut(s.ctxs, c, Idle, i);
    }
  }

  // ---------------------------------------------------------------- halves of an event

  /** Adding a reference to a live process: the count is then one ahead. */
  lemma RefAhead(s: Sys, i: nat)
    requires Inv(s, i, 0) && i < |s.pool.T| && s.pool.T[i].alive
    ensures Ref(s.pool, i).Some? && Inv(s.(pool := Ref(s.pool, i).value), i, 1)
  {
    var s' := s.(pool := Ref(s.pool, i).value);
    PoolKept(s.pool, s'.pool);
    SlotsKept(s, s');
    CtxsKept(s, s');
  }

  lemma OwnersKept(s: Sys, s': Sys)
    requires |s.pool.T| == |s.ledger| == |s'.pool.T| && s'.ledger == s.ledger && s'.ctxs == s.ctxs
    requires OwnersOk(s)
    ensures OwnersOk(s')
  {
  }

  /** One reference less on a slot that was one ahead: every count is then exactly what is owed. */
  lemma CountDown(s: Sys, i: nat, down: Sys)
    requires |s.pool.T| == |s.ledger| && Balanced(s, i, 1) && i < |s.pool.T|
    requires down == s.(pool := s.pool.(T := s.pool.T[i := s.pool.T[i].(refCount := s.pool.T[i].refCount - 1)]))
    ensures s.pool.T[i].alive && s.pool.T[i].refCount >= 1
    ensures forall j :: 0 <= j < |s.pool.T| ==>
      down.pool.T[j].refCount == Owed(down, j) && (j != i ==> (down.pool.T[j].alive <==> down.pool.T[j].refCount > 0))
  {
    hide SumHeld;
  }

  /** Dropping the reference the count is ahead by never trips an assert and restores balance. */
  lemma UnrefRestores(s: Sys, i: nat)
    requires Inv(s, i, 1) && i < |s.pool.T|
    ensures Unref(s.pool, i).Some? && Inv(s.(pool := Unref(s.pool, i).value), i, 0)
  {
    hide PoolOk, SlotsOk, CtxsOk, OwnersOk, Owed, Teardown;
    var down := s.(pool := s.pool.(T := s.pool.T[i := s.pool.T[i].(refCount := s.pool.T[i].refCount - 1)]));
    CountDown(s, i, down);
    PoolKept(s.pool, down.pool);
    SlotsKept(s, down);
    CtxsKept(s, down);
    OwnersKept(s, down);
    if s.pool.T[i].refCount == 1 {
      UnrefLast(down, i);
    }
  }

  lemma UnrefLast(s: Sys, i: nat)
    requires |s.pool.T| == |s.ledger| && i < |s.pool.T|
    requires PoolOk(s.pool) && SlotsOk(s) && CtxsOk(s) && OwnersOk(s)
    requires s.pool.T[i].alive && s.pool.T[i].refCount == 0 == Owed(s, i)
    requires forall j :: 0 <= j < |s.pool.T| ==>
      s.pool.T[j].refCount == Owed(s, j) && (j != i ==> (s.pool.T[j].alive <==> s.pool.T[j].refCount > 0))
    ensures Inv(s.(pool := Teardown(s.pool, i)), i, 0)
  {
    var s' := s.(pool := Teardown(s.pool, i));
    TeardownPool(s.pool, i);
    SlotsKept(s, s');
    Unnamed(s, i);
    forall c | 0 <= c < |s.ctxs| ensures CtxOk(s', s'.ctxs[c]) {
      assert CtxOk(s, s.ctxs[c]);
      assert Held(s.ctxs[c], i) == 0 && Owns(s.ctxs[c], i) == 0;
    }
  }

  /** In a balanced state the excess slot is irrelevant. */
  lemma AnySlot(s: Sys, i: nat, j: nat)
    requires Inv(s, i, 0)
    ensures Inv(s, j, 0)
  {
  }

  /** Changing the status fields of one slot, not its identity or counts. */
  lemma QueueOff(s: Sys, i: nat)
    requires Inv(s, i, 0) && i < |s.pool.T| && s.pool.T[i].onQueue
    ensures Inv(s.(pool := SetQueued(s.pool, i, false)), i, 1)
  {
    var s' := s.(pool := SetQueued(s.pool, i, false));
    PoolKept(s.pool, s'.pool);
    SlotsKept(s, s');
    CtxsKept(s, s');
  }

  lemma QueueOn(s: Sys, i: nat)
    requires Inv(s, i, 1) && i < |s.pool.T| && !s.pool.T[i].onQueue && Started(s, i)
    ensures Inv(s.(pool := SetQueued(s.pool, i, true)), i, 0)
  {
    var s' := s.(pool := SetQueued(s.pool, i, true));
    PoolKept(s.pool, s'.pool);
    CtxsKept(s, s');
    forall j | 0 <= j < |s.pool.T| ensures SlotOk(s', j) {
      assert SlotOk(s, j);
    }
  }

  lemma StateSet(s: Sys, i: nat, k: nat, st: PState)
    requires Inv(s, i, k) && i < |s.pool.T|
    ensures Inv(s.(pool := SetState(s.pool, i, st)), i, k)
  {
    var s' := s.(pool := SetState(s.pool, i, st));
    PoolKept(s.pool, s'.pool);
    CtxsKept(s, s');
    forall j | 0 <= j < |s.pool.T| ensures SlotOk(s', j) {
      assert SlotOk(s, j);
    }
  }

  lemma ReparentKept(s: Sys, parent: int)
    requires Inv(s, 0, 0)
    ensures Inv(s.(pool := Reparent(s.pool, parent)), 0, 0)
  {
    var s' := s.(pool := Reparent(s.pool, parent));
    PoolKept(s.pool, s'.pool);
    SlotsKept(s, s');
    CtxsKept(s, s');
  }

  lemma AddKept(s: Sys, i: nat)
    requires Inv(s, 0, 0) && i < |s.pool.T| && s.pool.T[i].alive && Started(s, i)
    ensures SchedAdd(s.pool, i).Some? && Inv(s.(pool := SchedAdd(s.pool, i).value), 0, 0)
  {
    if s.pool.T[i].state != Terminated && !s.pool.T[i].onQueue {
      AnySlot(s, 0, i);
      RefAhead(s, i);
      var s1 := s.(pool := Ref(s.pool, i).value);
      QueueOn(s1, i);
      AnySlot(s1.(pool := SetQueued(s1.pool, i, true)), i, 0);
    }
  }

  lemma RemoveKept(s: Sys, i: nat)
    requires Inv(s, 0, 0) && i < |s.pool.T|
    ensures SchedRemove(s.pool, i).Some? && Inv(s.(pool := SchedRemove(s.pool, i).value), 0, 0)
  {
    if s.pool.T[i].onQueue {
      AnySlot(s, 0, i);
      QueueOff(s, i);
      var s1 := s.(pool := SetQueued(s.pool, i, false));
      UnrefRestores(s1, i);
      AnySlot(s1.(pool := Unref(s1.pool, i).value), i, 0);
    }
  }

  /** pick_next drains terminated entries safely; the entry it returns keeps its reference,
      which the caller now owes. */
  lemma {:induction false} PickKept(s: Sys, from: nat)
    requires Inv(s, 0, 0)
    ensures PickFrom(s.pool, from).Some?
    ensures var (p, n) := PickFrom(s.pool, from).value;
            && |p.T| == |s.pool.T|
            && (n < 0 ==> Inv(s.(pool := p), 0, 0))
            && (n >= 0 ==>
                  n < |p.T| && Inv(s.(pool := p), n, 1) && Started(s.(pool := p), n) && p.T[n].state != Terminated)
    decreases |s.pool.T| - from
  {
    hide Inv, Unref;
    var p := s.pool;
    if from < |p.T| {
      if !(p.T[from].alive && p.T[from].onQueue) {
        PickKept(s, from + 1);
      } else {
        AnySlot(s, 0, from);
        SlotFact(s, from);
        QueueOff(s, from);
        if p.T[from].state == Terminated {
          var s1 := s.(pool := SetQueued(p, from, false));
          assert Shaped(s1.pool);
          UnrefRestores(s1, from);
          var s2 := s1.(pool := Unref(s1.pool, from).value);
          AnySlot(s2, from, 0);
          PickKept(s2, from + 1);
        }
      }
    }
  }

  predicate CreationBit(d: Creation) { d != Dropped }

  predicate OwnedBit(d: Creation) { d.Fresh? || d.Claimed? }

  /** Context c acts on slot i: it moves on, and the creation reference of i may change hands. */
  ghost predicate Acts(s: Sys, s': Sys, c: nat, i: nat) {
    && |s.pool.T| == |s.ledger| && c < |s.ctxs| && i < |s.pool.T|
    && |s'.ctxs| == |s.ctxs| && s'.ctxs == s.ctxs[c := s'.ctxs[c]]
    && |s'.ledger| == |s.ledger| && s'.ledger == s.ledger[i := s'.ledger[i]]
    && (s'.pool == s.pool || s'.pool == SetReaped(s.pool, i))
  }

  /** Ownership of creation references moves with the ledger entry of slot i. */
  ghost predicate OwnershipMoves(s: Sys, s': Sys, c: nat, i: nat)
    requires Acts(s, s', c, i)
  {
    && (s'.ledger[i] != s.ledger[i] && OwnedBit(s.ledger[i]) ==> Owns(s.ctxs[c], i) == 1)
    && Owns(s'.ctxs[c], i) - Owns(s.ctxs[c], i)
       == (if OwnedBit(s'.ledger[i]) then 1 else 0) - (if OwnedBit(s.ledger[i]) then 1 else 0)
    && (forall j: nat :: j != i ==> Owns(s'.ctxs[c], j) == Owns(s.ctxs[c], j))
  }

  lemma ActBalance(s: Sys, s': Sys, c: nat, i: nat, k: nat, k': nat)
    requires Acts(s, s', c, i) && Balanced(s, i, k)
    requires forall j: nat :: j != i ==> Held(s'.ctxs[c], j) == Held(s.ctxs[c], j)
    requires k' == k + (if CreationBit(s.ledger[i]) then 1 else 0) - (if CreationBit(s'.ledger[i]) then 1 else 0)
                     + Held(s.ctxs[c], i) - Held(s'.ctxs[c], i)
    ensures Balanced(s', i, k')
  {
    forall j | 0 <= j < |s.pool.T|
      ensures s'.pool.T[j].refCount == Owed(s', j) + (if j == i then k' else 0)
      ensures s'.pool.T[j].alive <==> s'.pool.T[j].refCount > 0
    {
      SumHeldPut(s.ctxs, c, s'.ctxs[c], j);
    }
  }

  lemma ActOwners(s: Sys, s': Sys, c: nat, i: nat)
    requires Acts(s, s', c, i) && OwnersOk(s) && OwnershipMoves(s, s', c, i)
    ensures OwnersOk(s')
  {
    forall j | 0 <= j < |s.pool.T|
      ensures SumOwns(s'.ctxs, j) == if s'.ledger[j].Fresh? || s'.ledger[j].Claimed? then 1 else 0
    {
      SumOwnsPut(s.ctxs, c, s'.ctxs[c], j);
    }
  }

  lemma ActCtxs(s: Sys, s': Sys, c: nat, i: nat)
    requires Acts(s, s', c, i) && OwnersOk(s) && OwnershipMoves(s, s', c, i) && CtxsOk(s)
    requires Started(s, i) ==> Started(s', i)
    requires CtxOk(s', s'.ctxs[c])
    ensures CtxsOk(s')
  {
    forall b | 0 <= b < |s.ctxs| ensures CtxOk(s', s'.ctxs[b]) {
      if b != c {
        assert CtxOk(s, s.ctxs[b]);
        OtherOwner(s, c, b, i);
      }
    }
  }

  /** Whatever c no longer owes shows up as the excess on slot i. */
  lemma Shift(s: Sys, s': Sys, c: nat, i: nat, k: nat, k': nat)
    requires Inv(s, i, k) && Acts(s, s', c, i) && OwnershipMoves(s, s', c, i)
    requires forall j: nat :: j != i ==> Held(s'.ctxs[c], j) == Held(s.ctxs[c], j)
    requires k' == k + (if CreationBit(s.ledger[i]) then 1 else 0) - (if CreationBit(s'.ledger[i]) then 1 else 0)
                     + Held(s.ctxs[c], i) - Held(s'.ctxs[c], i)
    requires Started(s, i) ==> Started(s', i)
    requires SlotOk(s', i) && CtxOk(s', s'.ctxs[c])
    ensures Inv(s', i, k')
  {
    ActBalance(s, s', c, i, k, k');
    ActOwners(s, s', c, i);
    ActCtxs(s, s', c, i);
    PoolKept(s.pool, s'.pool);
    forall j | 0 <= j < |s.pool.T| ensures SlotOk(s', j) {
      assert SlotOk(s, j);
    }
  }

  /** Two contexts never own the same creation reference. */
  lemma OtherOwner(s: Sys, c: nat, b: nat, i: nat)
    requires |s.pool.T| == |s.ledger| && i < |s.pool.T| && OwnersOk(s)
    requires c < |s.ctxs| && b < |s.ctxs| && b != c
    ensures Owns(s.ctxs[c], i) + Owns(s.ctxs[b], i) <= if OwnedBit(s.ledger[i]) then 1 else 0
  {
    SumOwnsPut(s.ctxs, c, Idle, i);
    SumOwnsPut(s.ctxs[c := Idle], b, Idle, i);
  }

  // ---------------------------------------------------------------- events

  /** Contexts that work on one slot and hold one plain reference on it before and after. */
  lemma Advance(s: Sys, c: nat, x: Ctx)
    requires Inv(s, 0, 0) && c < |s.ctxs| && s.ctxs[c].At? && x.At? && x.i == s.ctxs[c].i
    requires HoldsRef(s.ctxs[c].pc) == HoldsRef(x.pc) && Owns(s.ctxs[c], x.i) == Owns(x, x.i)
    requires CtxOk(s, x)
    ensures Inv(Put(s, c, x), 0, 0)
  {
    assert CtxOk(s, s.ctxs[c]);
    AnySlot(s, 0, x.i);
    var s' := Put(s, c, x);
    assert SlotOk(s, x.i);
    assert s'.ledger == s.ledger[x.i := s'.ledger[x.i]];
    Shift(s, s', c, x.i, 0, 0);
    AnySlot(s', x.i, 0);
  }

  lemma UnrefEvent(s: Sys, c: nat, x: Ctx)
    requires Inv(s, 0, 0) && WellShaped(s) && c < |s.ctxs| && !s.ctxs[c].Idle?
    requires Held(s.ctxs[c], s.ctxs[c].i) == Held(x, s.ctxs[c].i) + 1
    requires forall j: nat :: j != s.ctxs[c].i ==> Held(x, j) == Held(s.ctxs[c], j)
    requires forall j: nat :: Owns(x, j) == Owns(s.ctxs[c], j)
    requires CtxOk(s, x)
    ensures StepUnref(s, c, x).Some? && Inv(StepUnref(s, c, x).value, 0, 0)
  {
    var i := s.ctxs[c].i;
    AnySlot(s, 0, i);
    var s1 := Put(s, c, x);
    assert SlotOk(s, i);
    assert s1.ledger == s.ledger[i := s1.ledger[i]];
    Shift(s, s1, c, i, 0, 1);
    UnrefRestores(s1, i);
    AnySlot(s1.(pool := Unref(s1.pool, i).value), i, 0);
  }

  /** The owner of the creation reference drops it. */
  lemma DropEvent(s: Sys, c: nat, x: Ctx)
    requires Inv(s, 0, 0) && c < |s.ctxs| && s.ctxs[c].At? && Owns(s.ctxs[c], s.ctxs[c].i) == 1
    requires x.Idle? || x == s.ctxs[c].(pc := Settled)
    requires s.ctxs[c].pc.Won? <==> !x.Idle?
    ensures var s1 := Put(Mark(s, s.ctxs[c].i, Dropped), c, x);
            && Unref(s.pool, s.ctxs[c].i).Some?
            && Inv(s1.(pool := Unref(s.pool, s.ctxs[c].i).value), 0, 0)
  {
    var i := s.ctxs[c].i;
    assert CtxOk(s, s.ctxs[c]);
    assert SlotOk(s, i);
    AnySlot(s, 0, i);
    var s1 := Put(Mark(s, i, Dropped), c, x);
    assert s.pool.T[i].alive;
    Shift(s, s1, c, i, 0, 1);
    UnrefRestores(s1, i);
    AnySlot(s1.(pool := Unref(s1.pool, i).value), i, 0);
  }

  lemma CommitEvent(s: Sys, c: nat)
    requires Inv(s, 0, 0) && WellShaped(s) && At?(s, c, Creating)
    ensures StepCommit(s, c).Some? && Inv(StepCommit(s, c).value, 0, 0)
  {
    var i := s.ctxs[c].i;
    assert CtxOk(s, s.ctxs[c]);
    assert SlotOk(s, i);
    AnySlot(s, 0, i);
    var s1 := Put(Mark(s, i, Committed), c, Idle);
    Shift(s, s1, c, i, 0, 0);
    AnySlot(s1, i, 0);
    AddKept(s1, i);
  }

  /** An idle context, or one with plain references, takes over the reference slot n is ahead by. */
  lemma TakeOver(s: Sys, c: nat, n: nat, x: Ctx)
    requires Inv(s, n, 1) && c < |s.ctxs| && n < |s.pool.T|
    requires Held(x, n) == Held(s.ctxs[c], n) + 1
    requires forall j: nat :: j != n ==> Held(x, j) == Held(s.ctxs[c], j)
    requires forall j: nat :: Owns(x, j) == Owns(s.ctxs[c], j)
    requires CtxOk(s, x)
    ensures Inv(Put(s, c, x), 0, 0)
  {
    var s' := Put(s, c, x);
    assert SlotOk(s, n);
    assert s'.ledger == s.ledger[n := s'.ledger[n]];
    Shift(s, s', c, n, 1, 0);
    AnySlot(s', n, 0);
  }

  lemma PickEvent(s: Sys, c: nat)
    requires Inv(s, 0, 0) && WellShaped(s) && Idle?(s, c)
    ensures StepPick(s, c).Some? && Inv(StepPick(s, c).value, 0, 0)
  {
    PickKept(s, 0);
    var (p, n) := PickFrom(s.pool, 0).value;
    if n >= 0 {
      var s1 := s.(pool := p);
      StateSet(s1, n, 1, Running);
      TakeOver(s1.(pool := SetState(p, n, Running)), c, n, At(OnCpu, n, p.T[n].createSeq));
    }
  }

  lemma SwitchEvent(s: Sys, c: nat)
    requires Inv(s, 0, 0) && WellShaped(s) && At?(s, c, Dying)
    ensures StepSwitch(s, c).Some? && Inv(StepSwitch(s, c).value, 0, 0)
  {
    hide Inv, PickFrom, SetState;
    PickKept(s, 0);
    var (p, n) := PickFrom(s.pool, 0).value;
    var s1 := s.(pool := p);
    if n >= 0 { SwitchTo(s1, c, n); } else { SwitchIdle(s1, c); }
  }

  lemma SwitchTo(s: Sys, c: nat, n: nat)
    requires Inv(s, n, 1) && n < |s.pool.T| == |s.ledger| && Started(s, n) && At?(s, c, Dying)
    ensures var x := s.ctxs[c];
      Inv(Put(s.(pool := SetState(s.pool, n, Running)), c, Switching(x.i, x.q, Some((n, s.pool.T[n].createSeq)))), 0, 0)
  {
    var x := s.ctxs[c];
    assert CtxOk(s, x) && s.pool.T[n].alive;
    StateSet(s, n, 1, Running);
    TakeOver(s.(pool := SetState(s.pool, n, Running)), c, n, Switching(x.i, x.q, Some((n, s.pool.T[n].createSeq))));
  }

  lemma SwitchIdle(s: Sys, c: nat)
    requires Inv(s, 0, 0) && At?(s, c, Dying)
    ensures Inv(Put(s, c, Switching(s.ctxs[c].i, s.ctxs[c].q, None)), 0, 0)
  {
    var x := s.ctxs[c];
    assert CtxOk(s, x);
    var s' := Put(s, c, Switching(x.i, x.q, None));
    AnySlot(s, 0, x.i);
    assert SlotOk(s, x.i);
    assert s'.ledger == s.ledger[x.i := s'.ledger[x.i]];
    Shift(s, s', c, x.i, 0, 0);
    AnySlot(s', x.i, 0);
  }

  lemma LookupEvent(s: Sys, c: nat, i: int)
    requires Inv(s, 0, 0) && WellShaped(s) && Idle?(s, c)
    requires i < |s.pool.T| && (i >= 0 ==> s.pool.T[i].alive)
    ensures StepLookup(s, c, i).Some? && Inv(StepLookup(s, c, i).value, 0, 0)
  {
    if i >= 0 {
      AnySlot(s, 0, i);
      RefAhead(s, i);
      TakeOver(s.(pool := Ref(s.pool, i).value), c, i, At(Looking, i, s.pool.T[i].createSeq));
    }
  }

  /** However many contexts race for it, the exchange is won at most once per incarnation:
      afterwards the flag is up and the winner is recorded in the ledger. */
  lemma ClaimEvent(s: Sys, c: nat, i: nat, won: Ctx, lost: Ctx)
    requires Inv(s, 0, 0) && c < |s.ctxs| && i < |s.pool.T| && s.pool.T[i].alive && Started(s, i)
    requires won.At? && won.i == i && Here(s.pool, i, won.q)
    requires
      || (won.pc == Won && s.ctxs[c] == won.(pc := Looking) && lost == won.(pc := Settled))
      || (won.pc == HaltWon && s.ctxs[c] == Idle && lost == Idle)
    ensures Inv(StepClaim(s, c, i, won, lost), 0, 0)
  {
    AnySlot(s, 0, i);
    var s' := StepClaim(s, c, i, won, lost);
    assert SlotOk(s, i);
    assert s'.ledger == s.ledger[i := s'.ledger[i]];
    Shift(s, s', c, i, 0, 0);
    AnySlot(s', i, 0);
  }

  lemma CreateEvent(s: Sys, c: nat, pid: int, parent: int)
    requires Inv(s, 0, 0) && Idle?(s, c) && CanCreate(s.pool, pid)
    ensures var i := FirstFree(s.pool.T);
            var p := CreateAt(s.pool, i, pid, parent);
            Inv(Put(Mark(s.(pool := p), i, Fresh), c, At(Creating, i, p.gSeq)), 0, 0)
  {
    var i := FirstFree(s.pool.T);
    CreatePool(s.pool, i, pid, parent);
    var p := CreateAt(s.pool, i, pid, parent);
    var x := At(Creating, i, p.gSeq);
    var s' := Put(Mark(s.(pool := p), i, Fresh), c, x);
    assert Owed(s, i) == 0;
    Unnamed(s, i);
    forall j | 0 <= j < |p.T|
      ensures p.T[j].refCount == Owed(s', j) && (p.T[j].alive <==> p.T[j].refCount > 0)
      ensures SumOwns(s'.ctxs, j) == if s'.ledger[j].Fresh? || s'.ledger[j].Claimed? then 1 else 0
      ensures SlotOk(s', j)
    {
      SumHeldPut(s.ctxs, c, x, j);
      SumOwnsPut(s.ctxs, c, x, j);
      assert SlotOk(s, j);
    }
    forall b | 0 <= b < |s.ctxs| ensures CtxOk(s', s'.ctxs[b]) {
      assert CtxOk(s, s.ctxs[b]);
    }
  }

  lemma PublishedAlive(s: Sys, pid: int, q: int)
    requires Inv(s, 0, 0)
    ensures var i := Published(s.pool, pid); i >= 0 ==> s.pool.T[i].alive
    ensures var i := PublishedSeq(s.pool, pid, q); i >= 0 ==> s.pool.T[i].alive && s.pool.T[i].createSeq == q
  {
    var i := Published(s.pool, pid);
    if i >= 0 {
      assert PublishedAs(s.pool, i);
    }
  }

  lemma CtxFact(s: Sys, c: nat)
    requires Inv(s, 0, 0) && c < |s.ctxs|
    ensures |s.ledger| == |s.pool.T| && CtxOk(s, s.ctxs[c])
  {
  }

  lemma SlotFact(s: Sys, i: nat)
    requires Inv(s, 0, 0) && i < |s.pool.T|
    ensures |s.ledger| == |s.pool.T| && SlotOk(s, i) && Shaped(s.pool)
  {
  }

  lemma LifecycleStepKept(s: Sys, e: Event)
    requires Inv(s, 0, 0) && WellShaped(s) && e.c < |s.ctxs|
    requires e.Create? || e.Commit? || e.Abandon? || e.Cleanup? || e.Kill?
    ensures Step(s, e).Some? && Inv(Step(s, e).value, 0, 0)
  {
    hide Inv, Ref, Unref, SchedAdd, SchedRemove, PickFrom, Reparent, SetState, SetReaped, CreateAt;
    CtxFact(s, e.c);
    match e {
      case Create(c, pid, parent) => if Idle?(s, c) && CanCreate(s.pool, pid) { CreateEvent(s, c, pid, parent); }
      case Commit(c) => if At?(s, c, Creating) { CommitEvent(s, c); }
      case Abandon(c) => MoveAndRemove(s, c, Creating, Cleaning);
      case Cleanup(c) => if At?(s, c, Cleaning) { DropEvent(s, c, Idle); }
      case Kill(c) => if At?(s, c, Looking) { KillEvent(s, c); }
    }
  }

  lemma SchedulerStepKept(s: Sys, e: Event)
    requires Inv(s, 0, 0) && WellShaped(s) && e.c < |s.ctxs|
    requires e.Pick? || e.Requeue? || e.DropRunning? || e.Exit? || e.Unqueue? || e.Switch? || e.Bury?
    ensures Step(s, e).Some? && Inv(Step(s, e).value, 0, 0)
  {
    hide Inv, Ref, Unref, SchedAdd, SchedRemove, PickFrom, Reparent, SetState, SetReaped, CreateAt;
    CtxFact(s, e.c);
    match e {
      case Pick(c) => if Idle?(s, c) { PickEvent(s, c); }
      case Requeue(c) =>
        if At?(s, c, OnCpu) {
          Advance(s, c, s.ctxs[c].(pc := Yielding));
          AddKept(Put(s, c, s.ctxs[c].(pc := Yielding)), s.ctxs[c].i);
        }
      case DropRunning(c) => if At?(s, c, Yielding) { UnrefEvent(s, c, Idle); }
      case Exit(c) => if At?(s, c, OnCpu) { ExitEvent(s, c); }
      case Unqueue(c) => MoveAndRemove(s, c, Exiting, Dying);
      case Switch(c) => if At?(s, c, Dying) { SwitchEvent(s, c); }
      case Bury(c) =>
        if s.ctxs[c].Switching? {
          var x := s.ctxs[c];
          UnrefEvent(s, c, if x.next.Some? then At(OnCpu, x.next.value.0, x.next.value.1) else Idle);
        }
    }
  }

  lemma ReaperStepKept(s: Sys, e: Event)
    requires Inv(s, 0, 0) && WellShaped(s) && Considerate(s, e) && e.c < |s.ctxs|
    requires e.Lookup? || e.LookupSeq? || e.Release? || e.Claim? || e.BareDestroy? || e.DropCreation? || e.Unlink?
        || e.DropLookup?
    ensures Step(s, e).Some? && Inv(Step(s, e).value, 0, 0)
  {
    hide Inv, Ref, Unref, SchedAdd, SchedRemove, PickFrom, Reparent, SetState, SetReaped, CreateAt;
    CtxFact(s, e.c);
    match e {
      case Lookup(c, pid) => PublishedAlive(s, pid, 0); if Idle?(s, c) { LookupEvent(s, c, Published(s.pool, pid)); }
      case LookupSeq(c, pid, q) => PublishedAlive(s, pid, q);
          if Idle?(s, c) { LookupEvent(s, c, PublishedSeq(s.pool, pid, q)); }
      case Release(c) => if At?(s, c, Looking) { UnrefEvent(s, c, Idle); }
      case Claim(c) =>
        if At?(s, c, Looking) && s.pool.T[s.ctxs[c].i].state == Terminated {
          var x := s.ctxs[c];
          SlotFact(s, x.i);
          ClaimEvent(s, c, x.i, x.(pc := Won), x.(pc := Settled));
        }
      case BareDestroy(c) =>
        if At?(s, c, Looking) && s.pool.T[s.ctxs[c].i].state == Terminated {
          SlotFact(s, s.ctxs[c].i);
          Advance(s, c, s.ctxs[c].(pc := Settled));
        }
      case DropCreation(c) => if At?(s, c, Won) { DropEvent(s, c, s.ctxs[c].(pc := Settled)); }
      case Unlink(c) => MoveAndRemove(s, c, Settled, Removed);
      case DropLookup(c) => if At?(s, c, Removed) { UnrefEvent(s, c, Idle); }
    }
  }

  lemma HaltStepKept(s: Sys, e: Event)
    requires Inv(s, 0, 0) && WellShaped(s) && Considerate(s, e) && e.c < |s.ctxs| && (e.HaltClaim? || e.HaltDrop?)
    ensures Step(s, e).Some? && Inv(Step(s, e).value, 0, 0)
  {
    hide Inv, Ref, Unref, SchedAdd, SchedRemove, PickFrom, Reparent, SetState, SetReaped, CreateAt;
    CtxFact(s, e.c);
    match e {
      case HaltClaim(c, pid) =>
        PublishedAlive(s, pid, 0);
        var i := Published(s.pool, pid);
        if Idle?(s, c) && i >= 0 {
          ClaimEvent(s, c, i, At(HaltWon, i, s.pool.T[i].createSeq), Idle);
        }
      case HaltDrop(c) => if At?(s, c, HaltWon) { DropEvent(s, c, Idle); }
    }
  }

  /** Every considerate event of every context, enabled or not, keeps the accounting exact and trips no
      assert. */
  lemma StepKept(s: Sys, e: Event)
    requires Inv(s, 0, 0) && WellShaped(s) && Considerate(s, e)
    ensures Step(s, e).Some? && Inv(Step(s, e).value, 0, 0) && WellShaped(Step(s, e).value)
  {
    if e.c < |s.ctxs| {
      match e {
        case Create(_, _, _) | Commit(_) | Abandon(_) | Cleanup(_) | Kill(_) => LifecycleStepKept(s, e);
        case Pick(_) | Requeue(_) | DropRunning(_) | Exit(_) | Unqueue(_) | Switch(_) | Bury(_) =>
            SchedulerStepKept(s, e);
        case Lookup(_, _) | LookupSeq(_, _, _) | Release(_) | Claim(_) | BareDestroy(_) | DropCreation(_) | Unlink(_)
            | DropLookup(_) => ReaperStepKept(s, e);
        case HaltClaim(_, _) | HaltDrop(_) => HaltStepKept(s, e);
      }
    }
    InvShape(Step(s, e).value, 0, 0);
  }

  lemma MoveAndRemove(s: Sys, c: nat, from: Pc, to: Pc)
    requires Inv(s, 0, 0) && c < |s.ctxs|
    requires (from == Creating && to == Cleaning) || (from == Exiting && to == Dying)
        || (from == Settled && to == Removed)
    ensures At?(s, c, from) ==>
              && SchedRemove(s.pool, s.ctxs[c].i).Some?
              && Inv(Put(s, c, s.ctxs[c].(pc := to)).(pool := SchedRemove(s.pool, s.ctxs[c].i).value), 0, 0)
  {
    if At?(s, c, from) {
      assert CtxOk(s, s.ctxs[c]);
      Advance(s, c, s.ctxs[c].(pc := to));
      RemoveKept(Put(s, c, s.ctxs[c].(pc := to)), s.ctxs[c].i);
    }
  }

  lemma ExitEvent(s: Sys, c: nat)
    requires Inv(s, 0, 0) && At?(s, c, OnCpu)
    ensures var i := s.ctxs[c].i;
            && i < |s.pool.T|
            && Inv(Put(s.(pool := SetState(Reparent(s.pool, s.pool.T[i].pid), i, Terminated)), c,
                 s.ctxs[c].(pc := Exiting)), 0, 0)
  {
    assert CtxOk(s, s.ctxs[c]);
    var i := s.ctxs[c].i;
    ReparentKept(s, s.pool.T[i].pid);
    var s1 := s.(pool := Reparent(s.pool, s.pool.T[i].pid));
    AnySlot(s1, 0, i);
    StateSet(s1, i, 0, Terminated);
    var s2 := s1.(pool := SetState(s1.pool, i, Terminated));
    AnySlot(s2, i, 0);
    assert CtxOk(s2, s2.ctxs[c]);
    Advance(s2, c, s2.ctxs[c].(pc := Exiting));
  }

  lemma KillEvent(s: Sys, c: nat)
    requires Inv(s, 0, 0) && At?(s, c, Looking) && s.ctxs[c].i < |s.pool.T|
    ensures Inv(s.(pool := SetState(s.pool, s.ctxs[c].i, Terminated)), 0, 0)
  {
    var i := s.ctxs[c].i;
    AnySlot(s, 0, i);
    StateSet(s, i, 0, Terminated);
    AnySlot(s.(pool := SetState(s.pool, i, Terminated)), i, 0);
  }
}
