/** The sandbox profile compiler and what its programs mean.

    The distance a rule's test jumps over when it does not match is a parameter: each rule body
    is one instruction, so 1 skips exactly the body, while the compiler emits 2. */
module SandboxCompiler {
  import opened Common
  import opened Bits
  import opened SandboxMachine

  const RET_KILL := 0x0000_0000
  const RET_TRAP := 0x0003_0000
  const RET_ERRNO := 0x0005_0000
  const RET_ALLOW := 0x7fff_0000
  const ARCH_X86_64 := 0xc000_003e
  const OFFSET_NR := 0
  const OFFSET_ARCH := 4
  const EMITTED_DISTANCE := 2

  datatype Action = ALLOW | DENY | TRAP | KILL

  datatype Rule = Rule(action: Action, syscall: string, condition: Option<string>, errno: Option<nat>)

  datatype Profile = Profile(defaultAction: string, rules: seq<Rule>)

  function SyscallMap(): map<string, nat> {
    map["sys_exit" := 0, "sys_fork" := 1, "sys_read" := 2, "sys_write" := 3, "sys_open" := 4,
        "sys_close" := 5, "sys_waitpid" := 6, "sys_execve" := 7, "sys_getpid" := 8, "sys_sleep" := 9]
  }

  /** An absent or zero errno means EPERM. */
  function ActionValue(r: Rule): nat {
    match r.action
    case ALLOW => RET_ALLOW
    case DENY => Or(RET_ERRNO, if r.errno.Some? && r.errno.value != 0 then r.errno.value else 1)
    case TRAP => RET_TRAP
    case KILL => RET_KILL
  }

  /** Anything but the four action names defaults to KILL. */
  function DefaultValue(a: string): nat {
    if a == "ALLOW" then RET_ALLOW
    else if a == "DENY" then Or(RET_ERRNO, 1)
    else if a == "TRAP" then RET_TRAP
    else RET_KILL
  }

  /** Rules that produce code: a known syscall and no (or an empty) condition. */
  predicate Emits(r: Rule) {
    r.syscall in SyscallMap() && (r.condition.None? || r.condition.value == "")
  }

  /** A test for one syscall number and the value returned on a match. */
  datatype Test = Test(nr: nat, value: nat)

  function Tests(rules: seq<Rule>): (ts: seq<Test>) {
    if rules == [] then []
    else if Emits(rules[0]) then [Test(SyscallMap()[rules[0].syscall], ActionValue(rules[0]))] + Tests(rules[1..])
    else Tests(rules[1..])
  }

  function LoadArch(): Insn { Insn(0x20, 0, 0, OFFSET_ARCH) }
  function LoadNr(): Insn { Insn(0x20, 0, 0, OFFSET_NR) }
  function Ret(v: nat): Insn { Insn(0x06, 0, 0, v) }
  function Jeq(k: nat, jt: nat, jf: nat): Insn { Insn(0x15, jt, jf, k) }

  function Prologue(): seq<Insn> { [LoadArch(), Jeq(ARCH_X86_64, 1, 0), Ret(RET_KILL), LoadNr()] }

  function Body(ts: seq<Test>, dist: nat): (b: seq<Insn>)
    ensures |b| == 2 * |ts|
  {
    if ts == [] then [] else [Jeq(ts[0].nr, 0, dist), Ret(ts[0].value)] + Body(ts[1..], dist)
  }

  function Program(p: Profile, dist: nat): seq<Insn> {
    Prologue() + Body(Tests(p.rules), dist) + [Ret(DefaultValue(p.defaultAction))]
  }

  /** The stateful emitter. */
  class BPFCompiler {
    const profile: Profile
    var insns: seq<Insn>

    constructor (profile: Profile)
      ensures this.profile == profile && insns == []
    {
      this.profile := profile;
      insns := [];
    }

    method Emit(code: nat, jt: nat, jf: nat, k: nat)
      modifies this
      ensures insns == old(insns) + [Insn(code, jt, jf, k)]
    {
      insns := insns + [Insn(code, jt, jf, k)];
    }

    method Compile(dist: nat)
      modifies this
      ensures insns == Program(profile, dist)
    {
      insns := [];
      Emit(0x20, 0, 0, OFFSET_ARCH);
      Emit(0x15, 1, 0, ARCH_X86_64);
      Emit(0x06, 0, 0, RET_KILL);
      Emit(0x20, 0, 0, OFFSET_NR);
      var i := 0;
      while i < |profile.rules|
        invariant 0 <= i <= |profile.rules|
        invariant insns == Prologue() + Body(Tests(profile.rules[..i]), dist)
      {
        var rule := profile.rules[i];
        TestsSnoc(profile.rules, i);
        i := i + 1;
        if rule.syscall !in SyscallMap() { continue; }
        var nr := SyscallMap()[rule.syscall];
        if rule.condition.None? || rule.condition.value == "" {
          BodySnoc(Tests(profile.rules[..i - 1]), Test(nr, ActionValue(rule)), dist);
          Emit(0x15, 0, dist, nr);
          Emit(0x06, 0, 0, ActionValue(rule));
          assert insns == Prologue() + (Body(Tests(profile.rules[..i - 1]), dist)
              + [Jeq(nr, 0, dist), Ret(ActionValue(rule))]);
        }
      }
      assert profile.rules[..i] == profile.rules;
      Emit(0x06, 0, 0, DefaultValue(profile.defaultAction));
    }
  }

  lemma {:induction false} TestsConcat(a: seq<Rule>, b: seq<Rule>)
    ensures Tests(a + b) == Tests(a) + Tests(b)
  {
    if a == [] {
      assert a + b == b;
    } else {
      TestsConcat(a[1..], b);
      assert (a + b)[1..] == a[1..] + b;
    }
  }

  lemma TestsSnoc(rules: seq<Rule>, i: nat)
    requires i < |rules|
    ensures Emits(rules[i]) ==>
              Tests(rules[..i + 1]) == Tests(rules[..i]) + [Test(SyscallMap()[rules[i].syscall], ActionValue(rules[i]))]
    ensures !Emits(rules[i]) ==> Tests(rules[..i + 1]) == Tests(rules[..i])
  {
    assert rules[..i + 1] == rules[..i] + [rules[i]];
    TestsConcat(rules[..i], [rules[i]]);
  }

  lemma {:induction false} BodySnoc(ts: seq<Test>, t: Test, dist: nat)
    ensures Body(ts + [t], dist) == Body(ts, dist) + [Jeq(t.nr, 0, dist), Ret(t.value)]
  {
    if ts == [] {
      assert ts + [t] == [t];
    } else {
      BodySnoc(ts[1..], t, dist);
      assert (ts + [t])[1..] == ts[1..] + [t];
    }
  }

  // ---------------------------------------------------------------- layout

  /** Where test j sits in the program. */
  lemma {:induction false} BodyAt(ts: seq<Test>, dist: nat, j: nat)
    requires j < |ts|
    ensures Body(ts, dist)[2 * j] == Jeq(ts[j].nr, 0, dist) && Body(ts, dist)[2 * j + 1] == Ret(ts[j].value)
  {
    if j > 0 { BodyAt(ts[1..], dist, j - 1); }
  }

  lemma ProgramAt(p: Profile, dist: nat)
    ensures var ts := Tests(p.rules); var q := Program(p, dist);
            && |q| == 5 + 2 * |ts|
            && q[0] == LoadArch() && q[1] == Jeq(ARCH_X86_64, 1, 0) && q[2] == Ret(RET_KILL) && q[3] == LoadNr()
            && (forall j :: 0 <= j < |ts| ==>
                  q[4 + 2 * j] == Jeq(ts[j].nr, 0, dist) && q[5 + 2 * j] == Ret(ts[j].value))
            && q[4 + 2 * |ts|] == Ret(DefaultValue(p.defaultAction))
  {
    var ts := Tests(p.rules);
    var q := Program(p, dist);
    forall j | 0 <= j < |ts| ensures q[4 + 2 * j] == Jeq(ts[j].nr, 0, dist) && q[5 + 2 * j] == Ret(ts[j].value) {
      BodyAt(ts, dist, j);
    }
  }

  lemma {:induction false} TestsKnown(rules: seq<Rule>)
    ensures forall j :: 0 <= j < |Tests(rules)| ==> Tests(rules)[j].nr <= 9
  {
    if rules != [] { TestsKnown(rules[1..]); }
  }

  // ---------------------------------------------------------------- meaning

  /** The value of the first test that matches, else the default. */
  function FirstMatch(ts: seq<Test>, nr: nat, default: nat): nat {
    if ts == [] then default
    else if ts[0].nr == nr then ts[0].value
    else FirstMatch(ts[1..], nr, default)
  }

  /** What a profile promises: a foreign architecture is killed, otherwise the first matching
      rule decides, otherwise the default. */
  function Policy(p: Profile, arch: nat, nr: nat): nat {
    if arch != ARCH_X86_64 then RET_KILL
    else FirstMatch(Tests(p.rules), nr, DefaultValue(p.defaultAction))
  }

  /** What the program computes. */
  function Result(p: Profile, dist: nat, ld: Input): Outcome {
    Run(Program(p, dist), ld, 0, 0, 0)
  }

  lemma Kinds()
    ensures LoadAbs(LoadArch()) && LoadAbs(LoadNr()) && Width(LoadArch()) == 4 == Width(LoadNr())
    ensures !Return(LoadArch()) && !Return(LoadNr())
    ensures forall k, jt, jf, a: nat {:trigger Taken(Jeq(k, jt, jf), a)} :: Taken(Jeq(k, jt, jf), a) <==> a == k
    ensures forall k, jt, jf: nat ::
      KnownJump(Jeq(k, jt, jf)) && !Return(Jeq(k, jt, jf)) && !LoadAbs(Jeq(k, jt, jf)) && !LoadImm(Jeq(k, jt, jf))
    ensures forall v, a: nat {:trigger ReturnValue(Ret(v), a)} :: ReturnValue(Ret(v), a) == v
    ensures forall v: nat :: Return(Ret(v))
  {
  }

  /** With any distance the prologue kills a foreign architecture and then tests the number. */
  lemma RunPrologue(p: Profile, dist: nat, ld: Input)
    ensures ld(4, OFFSET_ARCH) != ARCH_X86_64 ==> Result(p, dist, ld) == Returned(RET_KILL, 3)
    ensures ld(4, OFFSET_ARCH) == ARCH_X86_64 ==>
      Result(p, dist, ld) == Run(Program(p, dist), ld, 4, ld(4, OFFSET_NR), 3)
  {
    ProgramAt(p, dist);
    Kinds();
    var q := Program(p, dist);
    var arch := ld(4, OFFSET_ARCH);
    assert Run(q, ld, 0, 0, 0) == Run(q, ld, 1, arch, 1);
    if arch == ARCH_X86_64 {
      assert Run(q, ld, 1, arch, 1) == Run(q, ld, 3, arch, 2);
      assert Run(q, ld, 3, arch, 2) == Run(q, ld, 4, ld(4, OFFSET_NR), 3);
    } else {
      assert Run(q, ld, 1, arch, 1) == Run(q, ld, 2, arch, 2);
    }
  }

  /** A block of tests at offset 4 with its default return. */
  ghost predicate Laid(q: seq<Insn>, ts: seq<Test>, dist: nat, d: nat) {
    && |q| == 5 + 2 * |ts|
    && (forall j :: 0 <= j < |ts| ==> q[4 + 2 * j] == Jeq(ts[j].nr, 0, dist) && q[5 + 2 * j] == Ret(ts[j].value))
    && q[4 + 2 * |ts|] == Ret(d)
  }

  lemma {:induction false} RunTests(q: seq<Insn>, ts: seq<Test>, d: nat, ld: Input, j: nat, nr: nat, steps: nat)
    requires Laid(q, ts, 1, d) && j <= |ts|
    ensures var r := Run(q, ld, 4 + 2 * j, nr, steps); r.Returned? && r.value == FirstMatch(ts[j..], nr, d)
    decreases |ts| - j
  {
    Kinds();
    if j < |ts| {
      assert q[4 + 2 * j] == Jeq(ts[j].nr, 0, 1) && q[5 + 2 * j] == Ret(ts[j].value);
      assert ts[j..][1..] == ts[j + 1..];
      if nr == ts[j].nr {
        assert Run(q, ld, 4 + 2 * j, nr, steps) == Run(q, ld, 5 + 2 * j, nr, steps + 1);
      } else {
        RunTests(q, ts, d, ld, j + 1, nr, steps + 1);
        assert Run(q, ld, 4 + 2 * j, nr, steps) == Run(q, ld, 4 + 2 * (j + 1), nr, steps + 1);
      }
    }
  }

  /** With distance 1 every profile's program computes the policy, on every input. */
  lemma DistanceOneIsPolicy(p: Profile, ld: Input)
    ensures Result(p, 1, ld).Returned? && Result(p, 1, ld).value == Policy(p, ld(4, OFFSET_ARCH), ld(4, OFFSET_NR))
  {
    RunPrologue(p, 1, ld);
    if ld(4, OFFSET_ARCH) == ARCH_X86_64 {
      ProgramAt(p, 1);
      RunTests(Program(p, 1), Tests(p.rules), DefaultValue(p.defaultAction), ld, 0, ld(4, OFFSET_NR), 3);
      assert Tests(p.rules)[0..] == Tests(p.rules);
    }
  }

  /** As emitted, a test that fails lands on the next rule's return: only the first rule is ever
      tested, the second is returned for every other number, and with a single rule the program
      runs off its end. */
  function EmittedMeaning(ts: seq<Test>, nr: nat, default: nat): Option<nat> {
    if ts == [] then Some(default)
    else if nr == ts[0].nr then Some(ts[0].value)
    else if |ts| >= 2 then Some(ts[1].value)
    else None
  }

  lemma EmittedExactly(p: Profile, ld: Input)
    ensures var r := Result(p, EMITTED_DISTANCE, ld);
            if ld(4, OFFSET_ARCH) != ARCH_X86_64 then r.Returned? && r.value == RET_KILL
            else match EmittedMeaning(Tests(p.rules), ld(4, OFFSET_NR), DefaultValue(p.defaultAction))
              case Some(v) => r.Returned? && r.value == v
              case None => r == OffEnd
  {
    RunPrologue(p, 2, ld);
    ProgramAt(p, 2);
    Kinds();
    var q := Program(p, 2);
    var ts := Tests(p.rules);
    var nr := ld(4, OFFSET_NR);
    if ld(4, OFFSET_ARCH) == ARCH_X86_64 && ts != [] {
      assert q[4 + 2 * 0] == Jeq(ts[0].nr, 0, 2) && q[5 + 2 * 0] == Ret(ts[0].value);
      if nr == ts[0].nr {
        assert Run(q, ld, 4, nr, 3) == Run(q, ld, 5, nr, 4);
      } else {
        assert Run(q, ld, 4, nr, 3) == Run(q, ld, 7, nr, 4);
        if |ts| >= 2 { assert q[5 + 2 * 1] == Ret(ts[1].value); }
      }
    }
  }

  /** The validator accepts every distance-1 program, and of the emitted ones exactly those
      that contain no rule. */
  lemma EmittedAccepted(p: Profile)
    ensures Accepted(Program(p, 1))
    ensures Accepted(Program(p, EMITTED_DISTANCE)) <==> Tests(p.rules) == []
  {
    Kinds();
    AcceptedOne(p);
    ProgramAt(p, 2);
    var ts := Tests(p.rules);
    var q := Program(p, 2);
    if ts != [] {
      var j := |ts| - 1;
      assert q[4 + 2 * j] == Jeq(ts[j].nr, 0, 2);
      assert !JumpInside(q, 4 + 2 * j);
    } else {
      assert forall i :: 0 <= i < |q| ==> JumpInside(q, i);
    }
  }

  lemma AcceptedOne(p: Profile)
    ensures Accepted(Program(p, 1))
  {
    Kinds();
    ProgramAt(p, 1);
    var ts := Tests(p.rules);
    var q := Program(p, 1);
    forall i | 0 <= i < |q| ensures JumpInside(q, i) {
      if 4 <= i < 4 + 2 * |ts| {
        var j := (i - 4) / 2;
        assert i == 4 + 2 * j || i == 5 + 2 * j;
        assert q[4 + 2 * j] == Jeq(ts[j].nr, 0, 1) && q[5 + 2 * j] == Ret(ts[j].value);
      }
    }
  }

  /** Skipping the wrong distance does no harm exactly when there is no rule, or when the second
      rule returns the default and no later rule would have decided otherwise. */
  predicate Harmless(ts: seq<Test>, default: nat) {
    ts == [] ||
    (|ts| >= 2 && ts[1].value == default &&
     forall k :: 1 <= k < |ts| && ts[k].nr != ts[0].nr ==> FirstMatch(ts[1..], ts[k].nr, default) == default)
  }

  lemma {:induction false} FirstMatchAbsent(ts: seq<Test>, nr: nat, default: nat)
    requires forall k :: 0 <= k < |ts| ==> ts[k].nr != nr
    ensures FirstMatch(ts, nr, default) == default
  {
    if ts != [] { FirstMatchAbsent(ts[1..], nr, default); }
  }

  lemma MeaningFollowsPolicy(p: Profile)
    ensures var ts, d := Tests(p.rules), DefaultValue(p.defaultAction);
      (forall nr: nat :: EmittedMeaning(ts, nr, d) == Some(Policy(p, ARCH_X86_64, nr))) <==> Harmless(ts, d)
  {
    var ts, d := Tests(p.rules), DefaultValue(p.defaultAction);
    TestsKnown(p.rules);
    if Harmless(ts, d) {
      forall nr: nat ensures EmittedMeaning(ts, nr, d) == Some(Policy(p, ARCH_X86_64, nr)) {
        if ts != [] && nr != ts[0].nr {
          if k :| 1 <= k < |ts| && ts[k].nr == nr {
          } else {
            FirstMatchAbsent(ts[1..], nr, d);
          }
        }
      }
    }
    if forall nr: nat :: EmittedMeaning(ts, nr, d) == Some(Policy(p, ARCH_X86_64, nr)) {
      assert EmittedMeaning(ts, 10, d) == Some(Policy(p, ARCH_X86_64, 10));
      FirstMatchAbsent(ts, 10, d);
      forall k | 1 <= k < |ts| && ts[k].nr != ts[0].nr ensures FirstMatch(ts[1..], ts[k].nr, d) == d {
        assert EmittedMeaning(ts, ts[k].nr, d) == Some(Policy(p, ARCH_X86_64, ts[k].nr));
      }
    }
  }

  /** The run of the program returns what the policy says. */
  ghost predicate Obeys(p: Profile, dist: nat, ld: Input) {
    var r := Result(p, dist, ld);
    r.Returned? && r.value == Policy(p, ld(4, OFFSET_ARCH), ld(4, OFFSET_NR))
  }

  /** The emitted program follows the policy on every input iff the profile is harmless. */
  lemma EmittedFollowsPolicyExactly(p: Profile)
    ensures (forall ld: Input :: Obeys(p, EMITTED_DISTANCE, ld))
       <==> Harmless(Tests(p.rules), DefaultValue(p.defaultAction))
  {
    var ts, d := Tests(p.rules), DefaultValue(p.defaultAction);
    MeaningFollowsPolicy(p);
    hide Harmless, EmittedMeaning, FirstMatch, Result;
    if Harmless(ts, d) {
      forall ld: Input ensures Obeys(p, EMITTED_DISTANCE, ld) {
        EmittedExactly(p, ld);
        assert EmittedMeaning(ts, ld(4, OFFSET_NR), d) == Some(Policy(p, ARCH_X86_64, ld(4, OFFSET_NR)));
      }
    }
    if forall ld: Input :: Obeys(p, EMITTED_DISTANCE, ld) {
      forall nr: nat ensures EmittedMeaning(ts, nr, d) == Some(Policy(p, ARCH_X86_64, nr)) {
        var ld: Input := (w, o) => if o == OFFSET_ARCH then ARCH_X86_64 else nr;
        assert Obeys(p, EMITTED_DISTANCE, ld);
        EmittedExactly(p, ld);
      }
    }
  }

  /** Emitted programs can be written to a file when every errno fits in sixteen bits. */
  lemma ProgramEncodes(p: Profile)
    requires forall i :: 0 <= i < |p.rules| && p.rules[i].errno.Some? ==> p.rules[i].errno.value < 0x1_0000
    ensures forall j :: 0 <= j < |Program(p, EMITTED_DISTANCE)| ==> Fits(Program(p, EMITTED_DISTANCE)[j])
  {
    ProgramAt(p, 2);
    TestsKnown(p.rules);
    TestsSmall(p.rules);
    ErrnoSmall(1);
    var ts := Tests(p.rules);
    var q := Program(p, 2);
    forall i | 0 <= i < |q| ensures Fits(q[i]) {
      if 4 <= i < 4 + 2 * |ts| {
        var j := (i - 4) / 2;
        assert i == 4 + 2 * j || i == 5 + 2 * j;
        assert q[4 + 2 * j] == Jeq(ts[j].nr, 0, 2) && q[5 + 2 * j] == Ret(ts[j].value);
      }
    }
  }

  lemma ErrnoSmall(e: nat)
    requires e < 0x1_0000
    ensures Or(RET_ERRNO, e) == RET_ERRNO + e
  {
    assert Pow2(16) == 0x1_0000 by { Pow2Add(8, 8); assert Pow2(8) == 256; }
    OrDisjoint(RET_ERRNO, e, 16);
  }

  lemma {:induction false} TestsSmall(rules: seq<Rule>)
    requires forall i :: 0 <= i < |rules| && rules[i].errno.Some? ==> rules[i].errno.value < 0x1_0000
    ensures forall j :: 0 <= j < |Tests(rules)| ==> Tests(rules)[j].value < 0x1_0000_0000
  {
    if rules != [] {
      TestsSmall(rules[1..]);
      ErrnoSmall(1);
      if rules[0].errno.Some? { ErrnoSmall(rules[0].errno.value); }
    }
  }
}
