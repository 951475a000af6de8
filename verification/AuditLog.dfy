/** Audit events, their FNV-1a hash, and the log as a bounded queue of linked events. */
module AuditLog {
  import opened Common
  import opened Bits

  const SEED: nat := 0x1337_DEAD_BEEF_0000   // the chain starts here

  /** An event record: the fields before the sequence number, the number itself, the fields
      after it, and the two trailing hash words. */
  datatype Event = Event(head: seq<Byte>, sequence: nat, tail: seq<Byte>, prevHash: nat, hash: nat)

  function LittleEndian(x: nat, n: nat): (b: seq<Byte>)
    ensures |b| == n
  {
    if n == 0 then [] else [x % 256] + LittleEndian(x / 256, n - 1)
  }

  /** The bytes the hash covers: everything but the two hash words. */
  function Hashed(e: Event): seq<Byte> { e.head + LittleEndian(e.sequence, 8) + e.tail }

  // ---------------------------------------------------------------- FNV-1a

  const BASIS: nat := 0xcbf2_9ce4_8422_2325

  /** Multiplication by the FNV prime, and by its inverse, modulo 2^64. */
  function Mix(x: nat): nat { x * 0x100_0000_01b3 % M64 }
  function Unmix(x: nat): nat { x * 0xce96_5057_aff6_957b % M64 }

  function FnvStep(h: nat, b: Byte): (r: nat)
    ensures r < M64
  {
    Mix(Xor(h, b))
  }

  function Fnv(bytes: seq<Byte>, h: nat): nat {
    if bytes == [] then h else Fnv(bytes[1..], FnvStep(h, bytes[0]))
  }

  function EventHash(e: Event): nat { Fnv(Hashed(e), BASIS) }

  method HashEvent(e: Event) returns (hash: nat)
    ensures hash == EventHash(e)
  {
    hide FnvStep;
    hash := BASIS;
    var data := Hashed(e);
    assert data[0..] == data;
    var i := 0;
    while i < |data|
      invariant 0 <= i <= |data|
      invariant Fnv(data[i..], hash) == EventHash(e)
    {
      assert data[i..][1..] == data[i + 1..];
      hash := FnvStep(hash, data[i]);
      i := i + 1;
    }
  }

  /** Prime times inverse is 1 plus this many times 2^64. */
  const WRAPS: nat := 0xce9650590f

  /** The FNV prime is odd, so multiplying by it can be undone modulo 2^64. */
  lemma PrimeInverse(x: nat)
    requires x < M64
    ensures Unmix(Mix(x)) == x
  {
    var y := x * 0x100_0000_01b3;
    var q, r := y / M64, y % M64;
    ModShift(M64, 0xce96_5057_aff6_957b * q, 0xce96_5057_aff6_957b * r);
    assert y * 0xce96_5057_aff6_957b == M64 * (0xce96_5057_aff6_957b * q) + 0xce96_5057_aff6_957b * r;
    ModShift(M64, WRAPS * x, x);
  }

  lemma PowWord()
    ensures Pow2(64) == M64
  {
    assert Pow2(8) == 256;
    hide Pow2;
    Pow2Add(8, 8);
    Pow2Add(16, 16);
    Pow2Add(32, 32);
  }

  lemma XorWord(h: nat, b: Byte)
    requires h < M64
    ensures Xor(h, b) < M64
  {
    hide Pow2, Xor;
    PowWord();
    XorBound(h, b, 64);
  }

  /** One step is injective in the state ... */
  lemma StepStateInjective(h: nat, g: nat, b: Byte)
    requires h < M64 && g < M64 && FnvStep(h, b) == FnvStep(g, b)
    ensures h == g
  {
    hide Mix, Unmix, Xor;
    XorWord(h, b);
    XorWord(g, b);
    PrimeInverse(Xor(h, b));
    PrimeInverse(Xor(g, b));
    XorInverse(h, b);
    XorInverse(g, b);
  }

  /** ... and in the byte. */
  lemma StepByteInjective(h: nat, a: Byte, b: Byte)
    requires h < M64 && FnvStep(h, a) == FnvStep(h, b)
    ensures a == b
  {
    hide Mix, Unmix, Xor;
    XorWord(h, a);
    XorWord(h, b);
    PrimeInverse(Xor(h, a));
    PrimeInverse(Xor(h, b));
    XorSym(h, a);
    XorSym(h, b);
    XorInverse(a, h);
    XorInverse(b, h);
  }

  lemma {:induction false} FnvStateInjective(bytes: seq<Byte>, h: nat, g: nat)
    requires h < M64 && g < M64 && Fnv(bytes, h) == Fnv(bytes, g)
    ensures h == g
  {
    hide FnvStep;
    if bytes != [] {
      FnvStateInjective(bytes[1..], FnvStep(h, bytes[0]), FnvStep(g, bytes[0]));
      StepStateInjective(h, g, bytes[0]);
    }
  }

  /** Changing any one byte changes the hash. */
  lemma {:induction false} FnvDetectsByte(bytes: seq<Byte>, i: nat, b: Byte, h: nat)
    requires i < |bytes| && b != bytes[i] && h < M64
    ensures Fnv(bytes[i := b], h) != Fnv(bytes, h)
  {
    hide FnvStep;
    if i == 0 {
      assert bytes[0 := b][1..] == bytes[1..];
      if Fnv(bytes[0 := b], h) == Fnv(bytes, h) {
        FnvStateInjective(bytes[1..], FnvStep(h, b), FnvStep(h, bytes[0]));
        StepByteInjective(h, b, bytes[0]);
      }
    } else {
      assert bytes[i := b][1..] == bytes[1..][i - 1 := b];
      FnvDetectsByte(bytes[1..], i - 1, b, FnvStep(h, bytes[0]));
    }
  }

  // ---------------------------------------------------------------- the abstract log

  /** The resident events, oldest first, and what has become of the others. */
  datatype Log = Log(cap: nat, q: seq<Event>, writes: nat, taken: nat, lost: nat, cleared: nat, last: nat)

  function EmptyLog(cap: nat): Log { Log(cap, [], 0, 0, 0, 0, SEED) }

  /** The event as it is stored: numbered, linked to its predecessor, hashed. */
  function Sealed(l: Log, e: Event): Event {
    var linked := e.(sequence := l.writes % M64, prevHash := l.last);
    linked.(hash := EventHash(linked))
  }

  /** A full log forgets its oldest event. */
  function WriteLog(l: Log, e: Event): Log {
    var full := l.q != [] && |l.q| >= l.cap;
    l.(q := (if full then l.q[1..] else l.q) + [Sealed(l, e)],
       writes := l.writes + 1,
       lost := if full then l.lost + 1 else l.lost,
       last := Sealed(l, e).hash)
  }

  function Min(a: nat, b: nat): nat { if a < b then a else b }

  function ReadLog(l: Log, n: nat): Log {
    l.(q := l.q[Min(n, |l.q|)..], taken := l.taken + Min(n, |l.q|))
  }

  function ClearLog(l: Log): Log { l.(q := [], cleared := l.cleared + |l.q|) }

  datatype Op = Write(e: Event) | Read | ReadBatch(n: nat) | Peek(k: nat) | Clear

  function Apply(l: Log, op: Op): Log {
    match op
    case Write(e) => WriteLog(l, e)
    case Read => ReadLog(l, 1)
    case ReadBatch(n) => ReadLog(l, n)
    case Peek(_) => l
    case Clear => ClearLog(l)
  }

  function RunOps(cap: nat, ops: seq<Op>): Log
    decreases |ops|
  {
    if ops == [] then EmptyLog(cap) else Apply(RunOps(cap, ops[..|ops| - 1]), ops[|ops| - 1])
  }

  /** What verify_integrity checks, starting from the hash it expects next. */
  predicate Verified(q: seq<Event>, expected: nat) {
    q == [] || (q[0].prevHash == expected && EventHash(q[0]) == q[0].hash && Verified(q[1..], q[0].hash))
  }

  // ---------------------------------------------------------------- invariant of every run

  /** Neighbours are linked and every stored hash is right. */
  ghost predicate Linked(q: seq<Event>) {
    && (forall k :: 0 <= k < |q| ==> q[k].hash == EventHash(q[k]))
    && (forall k :: 0 < k < |q| ==> q[k].prevHash == q[k - 1].hash)
  }

  ghost predicate Consistent(l: Log) {
    && |l.q| <= l.cap
    && l.writes == l.taken + l.lost + l.cleared + |l.q|
    && (forall k :: 0 <= k < |l.q| ==> l.q[k].sequence == (l.writes - |l.q| + k) % M64)
    && Linked(l.q)
    && (l.q != [] ==> l.last == l.q[|l.q| - 1].hash)
  }

  lemma SealedHash(l: Log, e: Event)
    ensures Sealed(l, e).hash == EventHash(Sealed(l, e))
  {
    assert Hashed(Sealed(l, e)) == Hashed(e.(sequence := l.writes % M64, prevHash := l.last));
  }

  lemma WriteConsistent(l: Log, e: Event)
    requires Consistent(l) && l.cap > 0
    ensures Consistent(WriteLog(l, e))
  {
    hide EventHash, Sealed;
    SealedFields(l, e);
    SealedHash(l, e);
    var l' := WriteLog(l, e);
    var full := l.q != [] && |l.q| >= l.cap;
    var keep := if full then l.q[1..] else l.q;
    assert l'.q == keep + [Sealed(l, e)];
  }

  lemma SealedFields(l: Log, e: Event)
    ensures Sealed(l, e).sequence == l.writes % M64 && Sealed(l, e).prevHash == l.last
    ensures Sealed(l, e).head == e.head && Sealed(l, e).tail == e.tail
    ensures WriteLog(l, e).last == Sealed(l, e).hash
  {
  }

  lemma ReadConsistent(l: Log, n: nat)
    requires Consistent(l)
    ensures Consistent(ReadLog(l, n))
  {
    hide EventHash;
  }

  lemma ClearConsistent(l: Log)
    requires Consistent(l)
    ensures Consistent(ClearLog(l))
  {
  }

  /** Every run of every operation keeps the log linked, numbered consecutively and accounted for. */
  lemma {:induction false} RunConsistent(cap: nat, ops: seq<Op>)
    requires cap > 0
    ensures Consistent(RunOps(cap, ops)) && RunOps(cap, ops).cap == cap
    decreases |ops|
  {
    hide EventHash, Sealed;
    if ops != [] {
      var l := RunOps(cap, ops[..|ops| - 1]);
      RunConsistent(cap, ops[..|ops| - 1]);
      match ops[|ops| - 1]
      case Write(e) => WriteConsistent(l, e);
      case Read => ReadConsistent(l, 1);
      case ReadBatch(n) => ReadConsistent(l, n);
      case Peek(_) =>
      case Clear => ClearConsistent(l);
    }
  }

  // ---------------------------------------------------------------- what verification means

  lemma {:induction false} VerifiedExactly(q: seq<Event>, expected: nat)
    requires Linked(q)
    ensures Verified(q, expected) <==> q == [] || q[0].prevHash == expected
  {
    hide EventHash;
    if q != [] {
      assert q[0].hash == EventHash(q[0]);
      if |q| > 1 { assert q[1].prevHash == q[0].hash; }
      VerifiedExactly(q[1..], q[0].hash);
    }
  }

  /** Every event a run has stored, oldest first, resident or not. */
  function History(cap: nat, ops: seq<Op>): seq<Event>
    decreases |ops|
  {
    if ops == [] then []
    else
      var before := ops[..|ops| - 1];
      match ops[|ops| - 1]
      case Write(e) => History(cap, before) + [Sealed(RunOps(cap, before), e)]
      case _ => History(cap, before)
  }

  /** The hash an event at position k of the history hangs on. */
  function Before(h: seq<Event>, k: nat): nat
    requires k <= |h|
  {
    if k == 0 then SEED else h[k - 1].hash
  }

  ghost predicate Suffix(q: seq<Event>, h: seq<Event>) { |q| <= |h| && q == h[|h| - |q|..] }

  /** One chain from the seed, and the hash it ends in. */
  ghost predicate Chained(h: seq<Event>, last: nat) {
    last == Before(h, |h|) && forall k :: 0 <= k < |h| ==> h[k].prevHash == Before(h, k)
  }

  /** The log holds the newest events of the history, which is one chain from the seed. */
  ghost predicate Remembers(l: Log, h: seq<Event>) {
    |h| == l.writes && Suffix(l.q, h) && Chained(h, l.last)
  }

  /** Dropping old events from a suffix, and adding a new one, leaves a suffix. */
  lemma SuffixShrinks(h: seq<Event>, q: seq<Event>, k: nat)
    requires Suffix(q, h) && k <= |q|
    ensures Suffix(q[k..], h)
  {
  }

  lemma SuffixGrows(h: seq<Event>, q: seq<Event>, x: Event)
    requires Suffix(q, h)
    ensures Suffix(q + [x], h + [x])
  {
  }

  lemma ChainedGrows(h: seq<Event>, last: nat, x: Event)
    requires Chained(h, last) && x.prevHash == last
    ensures Chained(h + [x], x.hash)
  {
    assert forall k :: 0 <= k <= |h| ==> Before(h + [x], k) == Before(h, k);
  }

  lemma WriteRemembers(l: Log, h: seq<Event>, e: Event)
    requires Remembers(l, h)
    ensures Remembers(WriteLog(l, e), h + [Sealed(l, e)])
  {
    hide EventHash, Sealed, Suffix, Chained;
    SealedFields(l, e);
    var x := Sealed(l, e);
    ChainedGrows(h, l.last, x);
    if l.q != [] && |l.q| >= l.cap {
      SuffixShrinks(h, l.q, 1);
      SuffixGrows(h, l.q[1..], x);
    } else {
      SuffixGrows(h, l.q, x);
    }
  }

  lemma ReadRemembers(l: Log, h: seq<Event>, n: nat)
    requires Remembers(l, h)
    ensures Remembers(ReadLog(l, n), h)
  {
    SuffixShrinks(h, l.q, Min(n, |l.q|));
  }

  lemma ClearRemembers(l: Log, h: seq<Event>)
    requires Remembers(l, h)
    ensures Remembers(ClearLog(l), h)
  {
    SuffixShrinks(h, l.q, |l.q|);
  }

  lemma {:induction false} RunRemembers(cap: nat, ops: seq<Op>)
    ensures Remembers(RunOps(cap, ops), History(cap, ops))
    decreases |ops|
  {
    hide EventHash, Sealed, WriteLog, ReadLog, ClearLog;
    if ops == [] {
      assert Remembers(EmptyLog(cap), []);
    } else {
      hide Remembers;
      var before := ops[..|ops| - 1];
      var l, h := RunOps(cap, before), History(cap, before);
      RunRemembers(cap, before);
      match ops[|ops| - 1]
      case Write(e) => WriteRemembers(l, h, e);
      case Read => ReadRemembers(l, h, 1);
      case ReadBatch(n) => ReadRemembers(l, h, n);
      case Peek(_) =>
      case Clear => ClearRemembers(l, h);
    }
  }

  /** An untampered run verifies exactly when nothing is resident or the newest event that has left the
      log, by a read, an overwrite or a clear, happens to hash to the seed; in particular while none
      has left. */
  lemma VerifyUntampered(cap: nat, ops: seq<Op>)
    requires cap > 0
    ensures var l, h := RunOps(cap, ops), History(cap, ops);
      && |h| == l.writes && l.taken + l.lost + l.cleared == |h| - |l.q|
      && (Verified(l.q, SEED) <==> l.q == [] || Before(h, |h| - |l.q|) == SEED)
  {
    hide *;
    RunConsistent(cap, ops);
    RunRemembers(cap, ops);
    RunFacts(RunOps(cap, ops), History(cap, ops));
    VerifiedExactly(RunOps(cap, ops).q, SEED);
  }

  lemma RunFacts(l: Log, h: seq<Event>)
    requires Consistent(l) && Remembers(l, h)
    ensures Linked(l.q) && |h| == l.writes && l.taken + l.lost + l.cleared == |h| - |l.q|
    ensures l.q != [] ==> l.q[0].prevHash == Before(h, |h| - |l.q|)
  {
    hide EventHash;
  }

  /** Untampered runs that are rejected: of any two events that differ in one byte, at least one is such
      that writing it, writing another and reading once leaves a log that does not verify. */
  lemma RejectedUntampered(cap: nat, e: Event, b: Byte, g: Event)
    requires cap >= 2 && e.head != [] && b != e.head[0]
    ensures var f := e.(head := e.head[0 := b]);
      || !Verified(RunOps(cap, [Write(e), Write(g), Read]).q, SEED)
      || !Verified(RunOps(cap, [Write(f), Write(g), Read]).q, SEED)
  {
    var f := e.(head := e.head[0 := b]);
    OneRead(cap, e, g);
    OneRead(cap, f, g);
    var first := Hashed(Sealed(EmptyLog(cap), e));
    hide Fnv;
    assert Hashed(Sealed(EmptyLog(cap), f)) == first[0 := b] by { assert first[0] == e.head[0]; }
    FnvDetectsByte(first, 0, b, BASIS);
  }

  /** After one read of two events the log verifies only if the first one hashes to the seed. */
  lemma OneRead(cap: nat, e: Event, g: Event)
    requires cap >= 2
    ensures Verified(RunOps(cap, [Write(e), Write(g), Read]).q, SEED) ==> EventHash(Sealed(EmptyLog(cap), e)) == SEED
  {
    hide EventHash;
    var l0 := EmptyLog(cap);
    var l1 := WriteLog(l0, e);
    var l2 := WriteLog(l1, g);
    var ops := [Write(e), Write(g), Read];
    assert ops[..2] == [Write(e), Write(g)] && ops[..2][..1] == [Write(e)] && [Write(e)][..0] == [];
    assert RunOps(cap, ops[..2][..1]) == l1;
    assert RunOps(cap, ops[..2]) == l2;
    assert l1.q == [Sealed(l0, e)] && l2.q == [Sealed(l0, e), Sealed(l1, g)];
    assert RunOps(cap, ops) == ReadLog(l2, 1);
    SealedHash(l0, e);
    assert RunOps(cap, ops).q == [Sealed(l1, g)] && Sealed(l1, g).prevHash == Sealed(l0, e).hash;
  }

  /** A wrong event hash anywhere is found. */
  lemma {:induction false} VerifyFindsHash(q: seq<Event>, i: nat, expected: nat)
    requires i < |q| && EventHash(q[i]) != q[i].hash
    ensures !Verified(q, expected)
  {
    hide EventHash;
    if i > 0 { VerifyFindsHash(q[1..], i - 1, q[0].hash); }
  }

  /** Changing any single hashed byte of any resident event of any run makes verification fail. */
  lemma TamperedByteFound(cap: nat, ops: seq<Op>, i: nat, j: nat, b: Byte, e': Event)
    requires cap > 0 && i < |RunOps(cap, ops).q|
    requires var e := RunOps(cap, ops).q[i];
             && j < |Hashed(e)| && b != Hashed(e)[j]
             && Hashed(e') == Hashed(e)[j := b] && e'.hash == e.hash
    ensures !Verified(RunOps(cap, ops).q[i := e'], SEED)
  {
    hide RunOps, Fnv;
    var q := RunOps(cap, ops).q;
    RunConsistent(cap, ops);
    assert q[i].hash == EventHash(q[i]);
    FnvDetectsByte(Hashed(q[i]), j, b, BASIS);
    VerifyFindsHash(q[i := e'], i, SEED);
  }

  /** While the log verifies, relinking any event or replacing its stored hash is found too. */
  lemma TamperedLinkFound(cap: nat, ops: seq<Op>, i: nat, e': Event)
    requires cap > 0 && i < |RunOps(cap, ops).q| && Verified(RunOps(cap, ops).q, SEED)
    requires var e := RunOps(cap, ops).q[i];
             Hashed(e') == Hashed(e) && (e'.hash != e.hash || e'.prevHash != e.prevHash)
    ensures !Verified(RunOps(cap, ops).q[i := e'], SEED)
  {
    hide RunOps, Fnv;
    var q := RunOps(cap, ops).q;
    RunConsistent(cap, ops);
    VerifiedExactly(q, SEED);
    assert q[i].hash == EventHash(q[i]);
    if e'.hash != q[i].hash {
      VerifyFindsHash(q[i := e'], i, SEED);
    } else {
      VerifyFindsLink(q, i, e', SEED);
    }
  }

  lemma {:induction false} VerifyFindsLink(q: seq<Event>, i: nat, e': Event, expected: nat)
    requires i < |q| && Verified(q, expected) && e'.prevHash != q[i].prevHash
    ensures !Verified(q[i := e'], expected)
  {
    hide EventHash;
    if i > 0 {
      assert q[i := e'][1..] == q[1..][i - 1 := e'];
      VerifyFindsLink(q[1..], i - 1, e', q[0].hash);
    }
  }
}
