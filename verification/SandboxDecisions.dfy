/** What a compiled profile returns, rule by rule, in the values of the seccomp interface. */
module SandboxDecisions {
  import opened Common
  import opened Bits
  import opened SandboxMachine
  import opened SandboxCompiler

  /** System calls by number. */
  function Names(): seq<string> {
    ["sys_exit", "sys_fork", "sys_read", "sys_write", "sys_open", "sys_close", "sys_waitpid", "sys_execve",
     "sys_getpid", "sys_sleep"]
  }

  /** The rule names system call nr and has no condition. */
  predicate Applies(r: Rule, nr: nat) {
    nr < |Names()| && r.syscall == Names()[nr] && (r.condition.None? || r.condition.value == "")
  }

  /** Rule k is the first that applies. */
  ghost predicate Decides(rules: seq<Rule>, nr: nat, k: nat) {
    k < |rules| && Applies(rules[k], nr) && forall j :: 0 <= j < k ==> !Applies(rules[j], nr)
  }

  /** The errno a denial reports; absent or zero means EPERM. */
  function Errno(r: Rule): nat {
    match r.errno
    case None => 1
    case Some(e) => if e == 0 then 1 else e
  }

  lemma NumberedByName(r: Rule, nr: nat)
    ensures Applies(r, nr) <==> Emits(r) && SyscallMap()[r.syscall] == nr
  {
    if Emits(r) {
      assert r.syscall == Names()[SyscallMap()[r.syscall]];
    }
  }

  lemma {:induction false} FirstRule(rules: seq<Rule>, nr: nat, k: nat, default: nat)
    requires Decides(rules, nr, k)
    ensures FirstMatch(Tests(rules), nr, default) == ActionValue(rules[k])
  {
    hide Applies, Emits, SyscallMap, ActionValue;
    NumberedByName(rules[0], nr);
    var ts := Tests(rules);
    if k == 0 {
      assert ts[0] == Test(nr, ActionValue(rules[0]));
    } else {
      assert Decides(rules[1..], nr, k - 1) by {
        forall j | 0 <= j < k - 1 ensures !Applies(rules[1..][j], nr) { assert !Applies(rules[j + 1], nr); }
      }
      assert !Applies(rules[0], nr);
      FirstRule(rules[1..], nr, k - 1, default);
      if Emits(rules[0]) { assert ts[1..] == Tests(rules[1..]); }
    }
  }

  lemma {:induction false} NoRule(rules: seq<Rule>, nr: nat, default: nat)
    requires forall j :: 0 <= j < |rules| ==> !Applies(rules[j], nr)
    ensures FirstMatch(Tests(rules), nr, default) == default
  {
    hide Applies, Emits, SyscallMap, ActionValue;
    if rules != [] {
      NumberedByName(rules[0], nr);
      forall j | 0 <= j < |rules[1..]| ensures !Applies(rules[1..][j], nr) { assert !Applies(rules[j + 1], nr); }
      NoRule(rules[1..], nr, default);
      var ts := Tests(rules);
      if Emits(rules[0]) { assert ts[1..] == Tests(rules[1..]); }
    }
  }

  // ---------------------------------------------------------------- denials

  /** x times 2^k, by doubling. */
  function Shl(x: nat, k: nat): nat { if k == 0 then x else 2 * Shl(x, k - 1) }

  /** OR with a shifted value joins the high parts and keeps the low one. */
  lemma {:induction false} OrHigh(c: nat, e: nat, k: nat)
    ensures Or(Shl(c, k), e) == Shl(Or(c, Shr(e, k)), k) + e - Shl(Shr(e, k), k)
  {
    hide Or;
    if k > 0 {
      OrHigh(c, e / 2, k - 1);
      OrHalf(Shl(c, k), e);
    }
  }

  lemma ShlFour(x: nat, k: nat)
    ensures Shl(x, k + 4) == 16 * Shl(x, k)
  {
    assert Shl(x, k + 4) == 2 * Shl(x, k + 3) && Shl(x, k + 2) == 2 * Shl(x, k + 1);
  }

  lemma ShlHalf(x: nat, k: nat)
    requires k == 16
    ensures Shl(x, k) == 0x1_0000 * x
  {
    hide Shl;
    ShlFour(x, k - 4);
    ShlFour(x, k - 8);
    ShlFour(x, k - 12);
    ShlFour(x, k - 16);
    ShlNone(x);
  }

  lemma ShlNone(x: nat)
    ensures Shl(x, 0) == x
  {
  }

  lemma ShrHalf(x: nat, k: nat)
    requires k == 16
    ensures Shr(x, k) == x / 0x1_0000
  {
    var j: nat :| j == 8;
    assert Pow2(j) == 256;
    hide Shr, Pow2;
    Pow2Add(j, j);
    ShrIsDiv(x, k);
  }

  /** The kernel reads the action from the upper half of the value and the errno from the lower. */
  lemma DenyValue(e: nat)
    ensures Or(RET_ERRNO, e) == 0x1_0000 * Or(5, e / 0x1_0000) + e % 0x1_0000
  {
    hide Or, Shl, Shr;
    var k: nat :| k == 16;
    OrHigh(5, e, k);
    ShrHalf(e, k);
    ShlHalf(5, k);
    ShlHalf(Or(5, e / 0x1_0000), k);
    ShlHalf(e / 0x1_0000, k);
  }

  lemma FiveOr(x: nat)
    ensures Or(5, x) == 0x7fff <==> x in {0x7ffa, 0x7ffb, 0x7ffe, 0x7fff}
    ensures x == 0 ==> Or(5, x) == 5
  {
    hide Or;
    OrHalf(5, x);
    OrHalf(2, x / 2);
    OrHalf(1, x / 4);
    OrNone(x / 8);
  }

  lemma OrNone(x: nat)
    ensures Or(0, x) == x && Or(5, 0) == 5
  {
  }

  // ---------------------------------------------------------------- decisions

  /** A denial whose errno fills up the action: four values, all of them above sixteen bits. */
  predicate LooksAllowed(r: Rule) {
    r.action == DENY && Errno(r) in {0x7ffa_0000, 0x7ffb_0000, 0x7ffe_0000, 0x7fff_0000}
  }

  /** The first rule that applies decides the run.  The number is at offset 0 of the call data, the architecture
      at 4. */
  lemma RuleDecides(p: Profile, ld: Input, k: nat)
    requires ld(4, 4) == 0xc000_003e && Decides(p.rules, ld(4, 0), k)
    ensures var (r, rule) := (Result(p, 1, ld), p.rules[k]);
      && r.Returned?
      && (rule.action == ALLOW ==> r.value == 0x7fff_0000)
      && (rule.action == TRAP ==> r.value == 0x3_0000)
      && (rule.action == KILL ==> r.value == 0)
      && (rule.action == DENY ==> r.value % 0x1_0000 == Errno(rule) % 0x1_0000)
      && (rule.action == DENY && Errno(rule) < 0x1_0000 ==> r.value / 0x1_0000 == 5)
      && (r.value == 0x7fff_0000 <==> rule.action == ALLOW || LooksAllowed(rule))
  {
    var rule := p.rules[k];
    DistanceOneIsPolicy(p, ld);
    FirstRule(p.rules, ld(4, 0), k, DefaultValue(p.defaultAction));
    hide Decides, Result, FirstMatch, Tests, Or, DefaultValue;
    if rule.action == DENY {
      DenyValue(Errno(rule));
      FiveOr(Errno(rule) / 0x1_0000);
    }
  }

  /** With no rule that applies the default decides it; a name that is no action kills. */
  lemma DefaultDecides(p: Profile, ld: Input)
    requires ld(4, 4) == 0xc000_003e
    requires forall j :: 0 <= j < |p.rules| ==> !Applies(p.rules[j], ld(4, 0))
    ensures var (r, d) := (Result(p, 1, ld), p.defaultAction);
      && r.Returned?
      && (d == "ALLOW" ==> r.value == 0x7fff_0000)
      && (d == "DENY" ==> r.value == 0x5_0001)
      && (d == "TRAP" ==> r.value == 0x3_0000)
      && (d !in ["ALLOW", "DENY", "TRAP"] ==> r.value == 0)
  {
    DistanceOneIsPolicy(p, ld);
    NoRule(p.rules, ld(4, 0), DefaultValue(p.defaultAction));
    hide Result, FirstMatch, Tests, Or, Applies;
    ErrnoSmall(1);
  }

  /** Some rule decides and passes the test, or none applies and the default is ALLOW. */
  ghost predicate Granted(p: Profile, nr: nat, odd: bool) {
    || (exists k: nat :: Decides(p.rules, nr, k) && (p.rules[k].action == ALLOW || (odd && LooksAllowed(p.rules[k]))))
    || ((forall j :: 0 <= j < |p.rules| ==> !Applies(p.rules[j], nr)) && p.defaultAction == "ALLOW")
  }

  /** A foreign architecture is killed.  A call is allowed exactly when the rule that decides it is ALLOW (or a
      denial that looks it), or when none applies and the default is ALLOW; only by ALLOW when errno values have
      sixteen bits. */
  lemma AllowedOnlyByAllow(p: Profile, ld: Input)
    ensures Result(p, 1, ld).Returned? && (ld(4, 4) != 0xc000_003e ==> Result(p, 1, ld).value == 0)
    ensures ld(4, 4) == 0xc000_003e ==> (Result(p, 1, ld).value == 0x7fff_0000 <==> Granted(p, ld(4, 0), true))
    ensures (forall i :: 0 <= i < |p.rules| ==> Errno(p.rules[i]) < 0x1_0000) ==>
      (Granted(p, ld(4, 0), true) <==> Granted(p, ld(4, 0), false))
  {
    hide Result, Applies;
    var nr := ld(4, 0);
    if ld(4, 4) != 0xc000_003e {
      DistanceOneIsPolicy(p, ld);
    } else if forall j :: 0 <= j < |p.rules| ==> !Applies(p.rules[j], nr) {
      DefaultDecides(p, ld);
    } else {
      var k := First(p.rules, nr);
      RuleDecides(p, ld, k);
      forall m: nat | Decides(p.rules, nr, m) ensures m == k { }
    }
  }

  lemma First(rules: seq<Rule>, nr: nat) returns (k: nat)
    requires exists j :: 0 <= j < |rules| && Applies(rules[j], nr)
    ensures Decides(rules, nr, k)
  {
    hide Applies;
    k := 0;
    while !Applies(rules[k], nr)
      invariant k < |rules| && forall j :: 0 <= j < k ==> !Applies(rules[j], nr)
      decreases |rules| - k
    {
      k := k + 1;
    }
  }
}
