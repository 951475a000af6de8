/** The audit ring buffer: an array overwritten in place, proved to be the bounded queue of
    module AuditLog.  Each locked operation is one step. */
module AuditBuffer {
  import opened Common
  import Bits
  import opened AuditLog

  /** Position k places after tail in a ring of n. */
  function Slot(tail: nat, k: nat, n: nat): (p: nat)
    requires tail < n && k <= n
    ensures p < n
  {
    if tail + k < n then tail + k else tail + k - n
  }

  lemma SlotIsMod(tail: nat, k: nat, n: nat)
    requires tail < n && k <= n
    ensures (tail + k) % n == Slot(tail, k, n)
  {
    if tail + k >= n {
      assert (tail + k) == n * 1 + (tail + k - n);
      Bits.DivUnique(tail + k, n, 1, tail + k - n);
    } else {
      Bits.DivUnique(tail + k, n, 0, tail + k);
    }
  }

  /** The next place in a ring of n. */
  function Inc(p: nat, n: nat): nat
    requires n > 0
  {
    (p + 1) % n
  }

  lemma IncIsSlot(p: nat, n: nat)
    requires p < n
    ensures Inc(p, n) == Slot(p, 1, n)
  {
    SlotIsMod(p, 1, n);
  }

  /** A counter as a 64-bit word. */
  function Word(n: nat): nat { n % M64 }

  lemma WrapSucc(n: nat)
    ensures Inc(Word(n), M64) == Word(n + 1)
  {
    Bits.ModShift(M64, n / M64, n % M64 + 1);
  }

  /** The queue q lies in the ring es from tail on. */
  ghost predicate Holds(es: seq<Event>, tail: nat, q: seq<Event>) {
    tail < |es| && |q| <= |es| && forall k :: 0 <= k < |q| ==> q[k] == es[Slot(tail, k, |es|)]
  }

  lemma HoldsPush(es: seq<Event>, tail: nat, q: seq<Event>, e: Event)
    requires Holds(es, tail, q) && |q| < |es|
    ensures Holds(es[Slot(tail, |q|, |es|) := e], tail, q + [e])
  {
  }

  lemma HoldsPop(es: seq<Event>, tail: nat, q: seq<Event>)
    requires Holds(es, tail, q) && q != []
    ensures Holds(es, Slot(tail, 1, |es|), q[1..])
  {
  }

  lemma HoldsBounds(es: seq<Event>, tail: nat, q: seq<Event>)
    requires Holds(es, tail, q)
    ensures tail < |es| && |q| <= |es|
  {
  }

  /** In a full ring the next write goes where the oldest event is. */
  lemma FullRing(tail: nat, n: nat)
    requires tail < n
    ensures Slot(tail, n, n) == tail == Slot(Slot(tail, 1, n), n - 1, n)
  {
  }

  lemma NextSlot(tail: nat, k: nat, n: nat)
    requires tail < n && k < n
    ensures Slot(Slot(tail, k, n), 1, n) == Slot(tail, k + 1, n)
  {
  }

  lemma WriteIs(l: Log, e: Event)
    requires l.cap > 0
    ensures var full := |l.q| >= l.cap;
      WriteLog(l, e) == Log(l.cap, (if full then l.q[1..] else l.q) + [Sealed(l, e)], l.writes + 1, l.taken,
                            if full then l.lost + 1 else l.lost, l.cleared, Sealed(l, e).hash)
  {
    hide Sealed;
  }

  class Ring {
    const events: array<Event>
    var head: nat
    var tail: nat
    var count: nat
    var dropped: nat    // uint64_t
    var sequence: nat   // uint64_t
    var lastHash: nat
    ghost var log: Log

    ghost predicate Valid()
      reads this, events
    {
      && events.Length == log.cap > 0
      && Holds(events[..], tail, log.q) && count == |log.q|
      && head == Slot(tail, count, events.Length)
      && sequence == Word(log.writes)
      && dropped == Word(log.lost)
      && lastHash == log.last
    }

    constructor (size: nat, blank: Event)
      requires size > 0
      ensures Valid() && fresh(events) && events.Length == size && log == EmptyLog(size)
    {
      events := new Event[size](_ => blank);
      head, tail, count, dropped, sequence := 0, 0, 0, 0, 0;
      lastHash := SEED;
      log := EmptyLog(size);
    }

    /** Number the event, link it to its predecessor, hash it, and advance the chain. */
    method Seal(event: Event) returns (stored: Event)
      requires sequence == Word(log.writes) && lastHash == log.last
      modifies this`sequence, this`lastHash
      ensures stored == Sealed(log, event)
      ensures sequence == Word(log.writes + 1) && lastHash == stored.hash
    {
      hide EventHash;
      WrapSucc(log.writes);
      stored := event.(sequence := sequence);
      sequence := Inc(sequence, M64);
      stored := stored.(prevHash := lastHash);
      var h := HashEvent(stored);
      stored := stored.(hash := h);
      lastHash := stored.hash;
    }

    /** Count the event to come, forgetting the oldest one when the ring is full. */
    method MakeRoom() returns (ghost q: seq<Event>)
      requires Valid()
      modifies this`tail, this`dropped, this`count
      ensures q == if |log.q| >= log.cap then log.q[1..] else log.q
      ensures dropped == Word(if |log.q| >= log.cap then log.lost + 1 else log.lost)
      ensures count == |q| + 1 <= events.Length && Holds(events[..], tail, q)
      ensures tail < events.Length && head == Slot(tail, |q|, events.Length)
    {
      var n := events.Length;
      q := log.q;
      HoldsBounds(events[..], tail, q);
      hide Holds, Slot, Inc, Word;
      if count >= n {
        IncIsSlot(tail, n);
        FullRing(tail, n);
        HoldsPop(events[..], tail, q);
        WrapSucc(log.lost);
        q := q[1..];
        tail := Inc(tail, n);
        dropped := Inc(dropped, M64);
      } else {
        count := count + 1;
      }
    }

    method WriteEvent(event: Event) returns (stored: Event)
      requires Valid()
      modifies this, events
      ensures Valid() && log == WriteLog(old(log), event)
      ensures stored == Sealed(old(log), event)
    {
      var n := events.Length;
      ghost var q := MakeRoom();
      WriteIs(log, event);
      hide Sealed, Holds, Slot, Inc, Word, WriteLog;
      stored := Seal(event);
      HoldsPush(events[..], tail, q, stored);
      NextSlot(tail, |q|, n);
      IncIsSlot(head, n);
      events[head] := stored;
      head := Inc(head, n);
      log := WriteLog(log, event);
    }

    method ReadEvent() returns (ok: bool, event: Event)
      requires Valid()
      modifies this
      ensures Valid() && log == ReadLog(old(log), 1)
      ensures ok <==> old(log.q) != []
      ensures ok ==> event == old(log.q)[0] && log.q == old(log.q)[1..]
    {
      event := events[0];
      if count == 0 {
        assert log.q[0..] == log.q;
        return false, event;
      }
      var n := events.Length;
      event := events[tail];
      IncIsSlot(tail, n);
      HoldsPop(events[..], tail, log.q);
      tail := Inc(tail, n);
      count := count - 1;
      log := ReadLog(log, 1);
      return true, event;
    }

    method ReadMany(maxCount: nat) returns (out: seq<Event>)
      requires Valid()
      modifies this
      ensures Valid() && log == ReadLog(old(log), maxCount)
      ensures out == old(log.q)[..Min(maxCount, |old(log.q)|)] && out + log.q == old(log.q)
    {
      out := [];
      ghost var l := log;
      assert l.q[0..] == l.q;
      while |out| < maxCount && count > 0
        invariant Valid() && |out| <= Min(maxCount, |l.q|)
        invariant log == l.(q := l.q[|out|..], taken := l.taken + |out|)
        invariant out == l.q[..|out|]
        decreases count
      {
        var ok, e := ReadEvent();
        assert l.q[..|out| + 1] == out + [e];
        out := out + [e];
      }
    }

    method PeekEvent(offset: nat) returns (ok: bool, event: Event)
      requires Valid()
      ensures ok <==> offset < |log.q|
      ensures ok ==> event == log.q[offset]
    {
      event := events[0];
      if offset >= count { return false, event; }
      SlotIsMod(tail, offset, events.Length);
      var pos := (tail + offset) % events.Length;
      return true, events[pos];
    }

    method ClearAll()
      requires Valid()
      modifies this
      ensures Valid() && log == ClearLog(old(log)) && log.q == [] && log.last == old(log.last)
    {
      head, tail, count := 0, 0, 0;
      log := ClearLog(log);
    }

    method VerifyIntegrity() returns (valid: bool)
      requires Valid()
      ensures valid == Verified(log.q, SEED)
    {
      var expected := SEED;
      assert log.q[0..] == log.q;
      var i := 0;
      while i < count
        invariant 0 <= i <= count
        invariant Verified(log.q[i..], expected) == Verified(log.q, SEED)
      {
        SlotIsMod(tail, i, events.Length);
        var pos := (tail + i) % events.Length;
        var event := events[pos];
        assert event == log.q[i..][0] && log.q[i..][1..] == log.q[i + 1..];
        if event.prevHash != expected { return false; }
        var computed := HashEvent(event);
        if computed != event.hash { return false; }
        expected := event.hash;
        i := i + 1;
      }
      return true;
    }
  }
}
