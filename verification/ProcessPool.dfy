/** The process pool of the reap simulation: process control blocks, the PID table
    and the reference-count primitives.

    Every C function appears twice: as a function on `Pool` values, which the
    protocol in module ReapProtocol reasons about, and as a method of class
    `ProcessTable` that updates the arrays in place and is proved to compute that
    function.  A function returns `None` exactly where the C code trips an
    `assert`, i.e. where it would touch a freed control block or drive a count
    below zero. */
module ProcessPool {
  import opened Common

  const INIT_PID := 1

  datatype PState = Ready | Running | Terminated

  datatype Proc = Proc(
    pid: int,
    refCount: int,
    reaped: bool,
    onQueue: bool,
    state: PState,
    alive: bool,
    parentPid: int,
    createSeq: int)

  datatype Pool = Pool(
    T: seq<Proc>,
    table: seq<int>,      // PID -> pool index, -1 when the slot is empty
    tableSeq: seq<int>,   // createSeq published at that PID, -1 when empty
    created: nat,
    freed: nat,
    gSeq: nat)

  /** Array sizes agree and every table slot is -1 or a pool index. */
  ghost predicate Shaped(p: Pool) {
    && |p.table| == |p.tableSeq|
    && forall pid :: 0 <= pid < |p.table| ==> -1 <= p.table[pid] < |p.T|
  }

  // ---------------------------------------------------------------- values

  function Ref(p: Pool, i: int): (r: Option<Pool>)
    requires 0 <= i < |p.T|
  {
    if !p.T[i].alive then None
    else Some(p.(T := p.T[i := p.T[i].(refCount := p.T[i].refCount + 1)]))
  }

  /** The last reference is gone: unpublish the PID if it is still ours and free the block. */
  function Teardown(p: Pool, i: int): (r: Pool)
    requires 0 <= i < |p.T| && |p.table| == |p.tableSeq|
  {
    var pid := p.T[i].pid;
    var ours := 0 <= pid < |p.table| && p.table[pid] == i;
    p.(T := p.T[i := p.T[i].(alive := false, state := Terminated)],
       table := if ours then p.table[pid := -1] else p.table,
       tableSeq := if ours then p.tableSeq[pid := -1] else p.tableSeq,
       freed := p.freed + 1)
  }

  function Unref(p: Pool, i: int): (r: Option<Pool>)
    requires 0 <= i < |p.T| && |p.table| == |p.tableSeq|
  {
    if !p.T[i].alive || p.T[i].refCount <= 0 then None
    else
      var q := p.(T := p.T[i := p.T[i].(refCount := p.T[i].refCount - 1)]);
      Some(if q.T[i].refCount == 0 then Teardown(q, i) else q)
  }

  function SetQueued(p: Pool, i: int, on: bool): (r: Pool)
    requires 0 <= i < |p.T|
  {
    p.(T := p.T[i := p.T[i].(onQueue := on)])
  }

  function SetState(p: Pool, i: int, st: PState): (r: Pool)
    requires 0 <= i < |p.T|
  {
    p.(T := p.T[i := p.T[i].(state := st)])
  }

  /** Idempotent enqueue; a terminated process never re-enters the queue. */
  function SchedAdd(p: Pool, i: int): (r: Option<Pool>)
    requires 0 <= i < |p.T|
  {
    if p.T[i].state == Terminated || p.T[i].onQueue then Some(p)
    else match Ref(p, i)
      case None => None
      case Some(q) => Some(SetQueued(q, i, true))
  }

  function SchedRemove(p: Pool, i: int): (r: Option<Pool>)
    requires 0 <= i < |p.T| && |p.table| == |p.tableSeq|
  {
    if !p.T[i].onQueue then Some(p) else Unref(SetQueued(p, i, false), i)
  }

  /** Scan from index `from`: drain terminated entries, stop at the first runnable one. */
  function PickFrom(p: Pool, from: nat): (r: Option<(Pool, int)>)
    requires |p.table| == |p.tableSeq|
    decreases |p.T| - from
  {
    if from >= |p.T| then Some((p, -1))
    else if !(p.T[from].alive && p.T[from].onQueue) then PickFrom(p, from + 1)
    else if p.T[from].state == Terminated then
      match Unref(SetQueued(p, from, false), from)
      case None => None
      case Some(q) => PickFrom(q, from + 1)
    else Some((SetQueued(p, from, false), from))
  }

  function FirstFree(T: seq<Proc>): (i: nat)
    ensures i <= |T| && (i < |T| ==> !T[i].alive)
    ensures forall j :: 0 <= j < i ==> T[j].alive
  {
    if T == [] || !T[0].alive then 0 else 1 + FirstFree(T[1..])
  }

  function CreateAt(p: Pool, i: int, pid: int, parent: int): (r: Pool)
    requires 0 <= i < |p.T| && 0 <= pid < |p.table| == |p.tableSeq|
  {
    p.(T := p.T[i := Proc(pid, 1, false, false, Ready, true, parent, p.gSeq + 1)],
       table := p.table[pid := i],
       tableSeq := p.tableSeq[pid := p.gSeq + 1],
       created := p.created + 1,
       gSeq := p.gSeq + 1)
  }

  /** Creation asks for a free block and an unpublished PID. */
  predicate CanCreate(p: Pool, pid: int) {
    FirstFree(p.T) < |p.T| && 0 <= pid < |p.table| && p.table[pid] == -1
  }

  function Reparent(p: Pool, parent: int): (r: Pool) {
    p.(T := seq(|p.T|, i requires 0 <= i < |p.T| =>
      if p.T[i].alive && p.T[i].parentPid == parent && p.T[i].pid != INIT_PID
      then p.T[i].(parentPid := INIT_PID) else p.T[i]))
  }

  /** The live children of `parent` go to init; init itself and everybody else stay as they are. */
  lemma ReparentExactly(p: Pool, parent: int, i: nat)
    requires i < |p.T|
    ensures var r := Reparent(p, parent);
      && r == p.(T := r.T) && |r.T| == |p.T|
      && r.T[i] == p.T[i].(parentPid := r.T[i].parentPid)
      && (p.T[i].parentPid != parent || p.T[i].pid == INIT_PID || !p.T[i].alive ==> r.T[i] == p.T[i])
      && (p.T[i].alive && p.T[i].parentPid == parent && p.T[i].pid != INIT_PID ==> r.T[i].parentPid == INIT_PID)
      && Reparent(r, parent) == r
  {
    assert Reparent(Reparent(p, parent), parent).T == Reparent(p, parent).T;
  }

  function Destroy(p: Pool, i: int): (r: Option<Pool>)
    requires 0 <= i < |p.T| && |p.table| == |p.tableSeq|
  {
    match SchedRemove(p, i)
    case None => None
    case Some(q) => Unref(q, i)
  }

  function SetReaped(p: Pool, i: int): (r: Pool)
    requires 0 <= i < |p.T|
  {
    p.(T := p.T[i := p.T[i].(reaped := true)])
  }

  function ClaimRelease(p: Pool, i: int): (r: Option<Pool>)
    requires 0 <= i < |p.T| && |p.table| == |p.tableSeq|
  {
    if p.T[i].reaped then Some(SetReaped(p, i)) else Unref(SetReaped(p, i), i)
  }

  /** The pool index published under `pid`, or -1. */
  function Published(p: Pool, pid: int): (i: int) {
    if 0 <= pid < |p.table| then p.table[pid] else -1
  }

  /** The index published under `pid` when it is the incarnation `q`, or -1. */
  function PublishedSeq(p: Pool, pid: int, q: int): (i: int)
    requires |p.table| == |p.tableSeq|
  {
    if 0 <= pid < |p.table| && p.tableSeq[pid] == q then p.table[pid] else -1
  }

  function ScheduleTerminated(p: Pool, dead: int): (r: Option<Pool>)
    requires 0 <= dead < |p.T| && |p.table| == |p.tableSeq|
  {
    PickShape(p, 0);
    match PickFrom(p, 0)
    case None => None
    case Some((q, next)) => Unref(if next >= 0 then SetState(q, next, Running) else q, dead)
  }

  lemma PickShape(p: Pool, from: nat)
    requires |p.table| == |p.tableSeq|
    ensures var r := PickFrom(p, from);
            r.Some? ==> |r.value.0.T| == |p.T| && |r.value.0.table| == |p.table|
                        && |r.value.0.tableSeq| == |p.tableSeq| && -1 <= r.value.1 < |p.T|
    decreases |p.T| - from
  {
  }

  predicate Queued(p: Pool, i: int)
    requires 0 <= i < |p.T|
  {
    p.T[i].alive && p.T[i].onQueue
  }

  /** What a scan does to block j.  Up to the block it returns, every queued block is a dead one: it leaves the
      queue with one reference less, and is freed when that was its last.  The returned block leaves the queue
      and keeps its count.  Nothing else changes. */
  lemma {:induction false} PickExactly(p: Pool, from: nat, j: nat)
    requires |p.table| == |p.tableSeq| && from <= |p.T| && j < |p.T| && PickFrom(p, from).Some?
    ensures var (q, n) := PickFrom(p, from).value;
      var (stop, b) := (if n < 0 then |p.T| else n, p.T[j]);
      && |q.T| == |p.T| && from <= stop <= |p.T| && q.created == p.created && q.gSeq == p.gSeq
      && (n >= 0 ==> n < |p.T| && Queued(p, n) && p.T[n].state != Terminated)
      && (from <= j < stop ==> !Queued(q, j))
      && (from <= j < stop && Queued(p, j) ==>
        && b.state == Terminated && b.refCount > 0
        && q.T[j] == b.(onQueue := false, refCount := b.refCount - 1, alive := b.refCount != 1))
      && (from <= j < stop && !Queued(p, j) ==> q.T[j] == b)
      && (j == n ==> q.T[j] == b.(onQueue := false))
      && (j < from || stop < j ==> q.T[j] == b)
    decreases |p.T| - from
  {
    if from < |p.T| {
      if !Queued(p, from) {
        PickExactly(p, from + 1, j);
      } else if p.T[from].state == Terminated {
        PickExactly(Unref(SetQueued(p, from, false), from).value, from + 1, j);
      }
    }
  }

  /** Block j's last reference is the queue's, and the scan that stopped at `stop` passed it. */
  predicate FreedBy(p: Pool, from: nat, stop: int, j: int) {
    from <= j < stop <= |p.T| && Queued(p, j) && p.T[j].refCount == 1
  }

  /** What a scan does to a PID: it is unpublished exactly when the block published under it is its own and freed. */
  lemma {:induction false} PickUnpublishes(p: Pool, from: nat, pid: nat)
    requires |p.table| == |p.tableSeq| && from <= |p.T| && pid < |p.table| && PickFrom(p, from).Some?
    ensures var (q, n) := PickFrom(p, from).value;
      var gone := FreedBy(p, from, if n < 0 then |p.T| else n, p.table[pid]) && p.T[p.table[pid]].pid == pid;
      && |q.table| == |p.table| && |q.tableSeq| == |p.table|
      && q.table[pid] == (if gone then -1 else p.table[pid])
      && q.tableSeq[pid] == (if gone then -1 else p.tableSeq[pid])
    decreases |p.T| - from
  {
    if from < |p.T| {
      PickExactly(p, from, from);
      if !Queued(p, from) {
        PickUnpublishes(p, from + 1, pid);
      } else if p.T[from].state == Terminated {
        PickUnpublishes(Unref(SetQueued(p, from, false), from).value, from + 1, pid);
      }
    }
  }

  /** The scan reaches block j, and j is queued and dead but has no reference to drop. */
  ghost predicate Stuck(p: Pool, from: nat, j: nat) {
    && from <= j < |p.T| && Queued(p, j) && p.T[j].state == Terminated && p.T[j].refCount <= 0
    && forall k :: from <= k < j && Queued(p, k) ==> p.T[k].state == Terminated
  }

  lemma StuckNext(p: Pool, q: Pool, from: nat, next: nat)
    requires next == from + 1 <= |p.T| == |q.T| && forall k :: next <= k < |p.T| ==> q.T[k] == p.T[k]
    requires Queued(p, from) ==> p.T[from].state == Terminated && p.T[from].refCount > 0
    ensures (exists j: nat :: Stuck(p, from, j)) <==> (exists j: nat :: Stuck(q, next, j))
  {
    if j: nat :| Stuck(q, next, j) {
      assert Stuck(p, from, j);
    } else if j: nat :| Stuck(p, from, j) {
      assert Stuck(q, next, j);
    }
  }

  /** The scan trips an assert exactly when it gets stuck. */
  lemma {:induction false} PickTrips(p: Pool, from: nat)
    requires |p.table| == |p.tableSeq| && from <= |p.T|
    ensures PickFrom(p, from).None? <==> exists j: nat :: Stuck(p, from, j)
    decreases |p.T| - from
  {
    if from < |p.T| {
      if !Queued(p, from) {
        PickTrips(p, from + 1);
        StuckNext(p, p, from, from + 1);
      } else if p.T[from].state == Terminated {
        if p.T[from].refCount <= 0 {
          assert Stuck(p, from, from);
        } else {
          var q := Unref(SetQueued(p, from, false), from).value;
          PickTrips(q, from + 1);
          StuckNext(p, q, from, from + 1);
        }
      }
    }
  }

  // ---------------------------------------------------------------- in place

  class ProcessTable {
    const T: array<Proc>
    const table: array<int>
    const tableSeq: array<int>
    var created: nat
    var freed: nat
    var gSeq: nat

    ghost predicate Valid()
      reads this, T, table, tableSeq
    {
      table != tableSeq && Shaped(Snapshot())
    }

    ghost function Snapshot(): (p: Pool)
      reads this, T, table, tableSeq
    {
      Pool(T[..], table[..], tableSeq[..], created, freed, gSeq)
    }

    constructor (maxp: nat, maxPid: nat)
      ensures Valid() && fresh(T) && fresh(table) && fresh(tableSeq)
      ensures Snapshot() == Empty(maxp, maxPid)
    {
      T := new Proc[maxp](_ => ZeroProc());
      table := new int[maxPid];
      tableSeq := new int[maxPid];
      created, freed, gSeq := 0, 0, 0;
      new;
      for i := 0 to maxPid
        invariant forall k :: 0 <= k < i ==> table[k] == -1 && tableSeq[k] == -1
        invariant T[..] == Empty(maxp, maxPid).T && created == freed == gSeq == 0
        invariant fresh(T) && fresh(table) && fresh(tableSeq) && table != tableSeq
      {
        table[i] := -1;
        tableSeq[i] := -1;
      }
    }

    method ProcRef(i: int)
      requires Valid() && 0 <= i < T.Length && T[i].alive
      modifies T
      ensures Valid() && Some(Snapshot()) == Ref(old(Snapshot()), i)
    {
      T[i] := T[i].(refCount := T[i].refCount + 1);
    }

    method ProcUnref(i: int)
      requires Valid() && i < T.Length
      requires i >= 0 ==> T[i].alive && T[i].refCount > 0
      modifies this`freed, T, table, tableSeq
      ensures Valid()
      ensures if i < 0 then Snapshot() == old(Snapshot()) else Some(Snapshot()) == Unref(old(Snapshot()), i)
    {
      if i < 0 { return; }
      T[i] := T[i].(refCount := T[i].refCount - 1);
      ghost var dropped := Snapshot();
      assert dropped == old(Snapshot()).(T := old(T[..])[i := T[i]]);
      if T[i].refCount == 0 {
        var pid := T[i].pid;
        if 0 <= pid < table.Length && table[pid] == i {
          table[pid] := -1;
          tableSeq[pid] := -1;
        }
        T[i] := T[i].(alive := false, state := Terminated);
        freed := freed + 1;
        assert Snapshot() == Teardown(dropped, i);
      }
    }

    method Enqueue(i: int) returns (added: bool)
      requires Valid() && 0 <= i < T.Length
      requires SchedAdd(Snapshot(), i).Some?
      modifies T
      ensures Valid() && Some(Snapshot()) == SchedAdd(old(Snapshot()), i)
      ensures added <==> Snapshot() != old(Snapshot())
    {
      if T[i].state == Terminated || T[i].onQueue { return false; }
      ProcRef(i);
      T[i] := T[i].(onQueue := true);
      assert T[..][i].onQueue && !old(T[..])[i].onQueue;
      return true;
    }

    method Pick() returns (next: int)
      requires Valid() && PickFrom(Snapshot(), 0).Some?
      modifies this`freed, T, table, tableSeq
      ensures Valid() && Some((Snapshot(), next)) == PickFrom(old(Snapshot()), 0)
    {
      var i := 0;
      while i < T.Length
        invariant 0 <= i <= T.Length && Valid()
        invariant PickFrom(Snapshot(), i) == PickFrom(old(Snapshot()), 0)
      {
        if T[i].alive && T[i].onQueue {
          if T[i].state == Terminated {
            ghost var before := Snapshot();
            T[i] := T[i].(onQueue := false);
            assert Snapshot() == SetQueued(before, i, false);
            ProcUnref(i);
            i := i + 1;
            continue;
          }
          T[i] := T[i].(onQueue := false);
          return i;
        }
        i := i + 1;
      }
      return -1;
    }

    method Dequeue(i: int)
      requires Valid() && i < T.Length
      requires i >= 0 ==> SchedRemove(Snapshot(), i).Some?
      modifies this`freed, T, table, tableSeq
      ensures Valid()
      ensures if i < 0 then Snapshot() == old(Snapshot()) else Some(Snapshot()) == SchedRemove(old(Snapshot()), i)
    {
      if i < 0 { return; }
      if !T[i].onQueue { return; }
      T[i] := T[i].(onQueue := false);
      assert Snapshot() == SetQueued(old(Snapshot()), i, false);
      ProcUnref(i);
    }

    method Create(pid: int, parent: int) returns (slot: int)
      requires Valid() && CanCreate(Snapshot(), pid)
      modifies this`created, this`gSeq, T, table, tableSeq
      ensures Valid() && slot == FirstFree(old(T[..])) < T.Length
      ensures Snapshot() == CreateAt(old(Snapshot()), slot, pid, parent)
      ensures T[slot].pid == pid && T[slot].parentPid == parent && T[slot].refCount == 1 && T[slot].state == Ready
      ensures table[pid] == slot && tableSeq[pid] == T[slot].createSeq == old(gSeq) + 1
    {
      var i := 0;
      while i < T.Length && T[i].alive
        invariant 0 <= i <= T.Length
        invariant forall k :: 0 <= k < i ==> T[k].alive
      {
        i := i + 1;
      }
      gSeq := gSeq + 1;
      T[i] := Proc(pid, 1, false, false, Ready, true, parent, gSeq);
      table[pid] := i;
      tableSeq[pid] := T[i].createSeq;
      created := created + 1;
      return i;
    }

    method ProcDestroy(i: int)
      requires Valid() && i < T.Length
      requires i >= 0 ==> Destroy(Snapshot(), i).Some?
      modifies this`freed, T, table, tableSeq
      ensures Valid()
      ensures if i < 0 then Snapshot() == old(Snapshot()) else Some(Snapshot()) == Destroy(old(Snapshot()), i)
    {
      if i < 0 { return; }
      Dequeue(i);
      ProcUnref(i);
    }

    method ReapClaimRelease(i: int)
      requires Valid() && i < T.Length
      requires i >= 0 ==> ClaimRelease(Snapshot(), i).Some?
      modifies this`freed, T, table, tableSeq
      ensures Valid()
      ensures if i < 0 then Snapshot() == old(Snapshot()) else Some(Snapshot()) == ClaimRelease(old(Snapshot()), i)
    {
      if i < 0 { return; }
      var prior := T[i].reaped;
      T[i] := T[i].(reaped := true);
      assert Snapshot() == SetReaped(old(Snapshot()), i);
      if !prior {
        ProcUnref(i);
      }
    }

    method GetByPid(pid: int) returns (i: int)
      requires Valid()
      requires Published(Snapshot(), pid) >= 0 ==> T[Published(Snapshot(), pid)].alive
      modifies T
      ensures Valid() && i == Published(old(Snapshot()), pid)
      ensures if i < 0 then Snapshot() == old(Snapshot()) else Some(Snapshot()) == Ref(old(Snapshot()), i)
    {
      if pid < 0 || pid >= table.Length { return -1; }
      i := table[pid];
      if i < 0 { return; }
      ProcRef(i);
    }

    method GetByPidSeq(pid: int, expected: int) returns (i: int)
      requires Valid()
      requires PublishedSeq(Snapshot(), pid, expected) >= 0 ==> T[PublishedSeq(Snapshot(), pid, expected)].alive
      modifies T
      ensures Valid() && (i < 0 <==> PublishedSeq(old(Snapshot()), pid, expected) < 0)
      ensures i >= 0 ==> i == PublishedSeq(old(Snapshot()), pid, expected)
      ensures if i < 0 then Snapshot() == old(Snapshot()) else Some(Snapshot()) == Ref(old(Snapshot()), i)
    {
      if pid < 0 || pid >= table.Length { return -1; }
      i := table[pid];
      if i < 0 { return -1; }
      if tableSeq[pid] != expected { return -1; }
      ProcRef(i);
    }

    method ScheduleDead(dead: int)
      requires Valid() && 0 <= dead < T.Length
      requires ScheduleTerminated(Snapshot(), dead).Some?
      modifies this`freed, T, table, tableSeq
      ensures Valid() && Some(Snapshot()) == ScheduleTerminated(old(Snapshot()), dead)
    {
      PickShape(Snapshot(), 0);
      var next := Pick();
      ghost var picked := Snapshot();
      if next >= 0 {
        T[next] := T[next].(state := Running);
        assert Snapshot() == SetState(picked, next, Running);
      }
      ProcUnref(dead);
    }

    method ReparentChildren(parent: int)
      requires Valid()
      modifies T
      ensures Valid() && Snapshot() == Reparent(old(Snapshot()), parent)
    {
      for i := 0 to T.Length
        invariant forall k :: i <= k < T.Length ==> T[k] == old(T[k])
        invariant forall k :: 0 <= k < i ==> T[k] == Reparent(old(Snapshot()), parent).T[k]
      {
        if T[i].alive && T[i].parentPid == parent && T[i].pid != INIT_PID {
          T[i] := T[i].(parentPid := INIT_PID);
        }
      }
      assert T[..] == Reparent(old(Snapshot()), parent).T;
    }
  }

  function ZeroProc(): Proc { Proc(0, 0, false, false, Ready, false, 0, 0) }

  /** The boot state: zeroed pool, empty PID table. */
  function Empty(maxp: nat, maxPid: nat): Pool {
    Pool(seq(maxp, _ => ZeroProc()), seq(maxPid, _ => -1), seq(maxPid, _ => -1), 0, 0, 0)
  }
}
