/** The audit rule list: rules are pushed at the front, looked up from the front, and evaluated
    with the last match in the list winning, i.e. the rule that was added first. */
module AuditRules {
  import opened Common
  import opened AuditGlob

  datatype Action = LOG | IGNORE | ALERT

  datatype Filter =
    | ByType(eventType: int)
    | ByUid(uid: nat)
    | ByPid(pid: nat)
    | BySyscall(syscall: nat)
    | ByPath(pattern: string)
    | ByResult(result: int)
    | Unknown

  datatype Rule = Rule(id: nat, filter: Filter, action: Action, enabled: bool)

  datatype AuditEvent = AuditEvent(eventType: int, uid: nat, pid: nat, syscall: nat, path: string, result: int)

  predicate Matching(r: Rule, e: AuditEvent) {
    r.enabled &&
    match r.filter
    case ByType(t) => e.eventType == t
    case ByUid(u) => e.uid == u
    case ByPid(p) => e.pid == p
    case BySyscall(s) => e.syscall == s
    case ByPath(p) => e.path != "" && GlobDepth(e.path, p, 0)
    case ByResult(x) => e.result == x
    case Unknown => false
  }

  // ---------------------------------------------------------------- reference: rules by age

  /** A rule together with its place in the order of additions, and whether its id was assigned. */
  datatype Entry = Entry(birth: nat, auto: bool, rule: Rule)

  /** Surviving rules, oldest first; additions so far; the next automatic id. */
  datatype Book = Book(ages: seq<Entry>, adds: nat, nextId: nat)

  datatype Op = Add(rule: Rule) | Delete(id: nat) | SetEnabled(id: nat, on: bool) | ClearAll

  /** The youngest rule with this id, or |ages| if there is none. */
  function Youngest(ages: seq<Entry>, id: nat): (k: nat)
    ensures k <= |ages|
    ensures k < |ages| ==> ages[k].rule.id == id && forall j :: k < j < |ages| ==> ages[j].rule.id != id
    ensures k == |ages| ==> forall j :: 0 <= j < |ages| ==> ages[j].rule.id != id
  {
    if ages == [] then 0
    else if ages[|ages| - 1].rule.id == id then |ages| - 1
    else
      var k := Youngest(ages[..|ages| - 1], id);
      if k == |ages| - 1 then |ages| else k
  }

  function Apply(b: Book, op: Op): Book {
    match op
    case Add(r) =>
      var auto := r.id == 0;
      Book(b.ages + [Entry(b.adds, auto, if auto then r.(id := b.nextId) else r)], b.adds + 1,
           if auto then (b.nextId + 1) % M32 else b.nextId)
    case Delete(id) =>
      var k := Youngest(b.ages, id);
      if k < |b.ages| then b.(ages := b.ages[..k] + b.ages[k + 1..]) else b
    case SetEnabled(id, on) =>
      var k := Youngest(b.ages, id);
      if k < |b.ages| then b.(ages := b.ages[k := b.ages[k].(rule := b.ages[k].rule.(enabled := on))]) else b
    case ClearAll => b.(ages := [])
  }

  function RunOps(ops: seq<Op>): Book
    decreases |ops|
  {
    if ops == [] then Book([], 0, 1) else Apply(RunOps(ops[..|ops| - 1]), ops[|ops| - 1])
  }

  /** The action of the oldest matching rule, LOG if none matches. */
  function Verdict(ages: seq<Entry>, e: AuditEvent): Action {
    if ages == [] then LOG
    else if Matching(ages[0].rule, e) then ages[0].rule.action
    else Verdict(ages[1..], e)
  }

  ghost predicate Ordered(b: Book) {
    && (forall k :: 0 <= k < |b.ages| ==> b.ages[k].birth < b.adds)
    && (forall j, k :: 0 <= j < k < |b.ages| ==> b.ages[j].birth < b.ages[k].birth)
  }

  lemma {:induction false} RunOrdered(ops: seq<Op>)
    ensures Ordered(RunOps(ops))
    decreases |ops|
  {
    if ops != [] {
      RunOrdered(ops[..|ops| - 1]);
    }
  }

  /** How many ids a run has assigned. */
  function Autos(ops: seq<Op>): nat
    decreases |ops|
  {
    if ops == [] then 0
    else
      var op := ops[|ops| - 1];
      Autos(ops[..|ops| - 1]) + if op.Add? && op.rule.id == 0 then 1 else 0
  }

  ghost predicate Numbered(b: Book, autos: nat) {
    && b.nextId == autos + 1
    && forall k :: 0 <= k < |b.ages| && b.ages[k].auto ==> b.ages[k].rule.id <= autos
  }

  lemma {:induction false} RunNumbered(ops: seq<Op>)
    requires Autos(ops) < M32 - 1
    ensures Numbered(RunOps(ops), Autos(ops))
    decreases |ops|
  {
    if ops != [] {
      RunNumbered(ops[..|ops| - 1]);
    }
  }

  /** Until the counter wraps, the id assigned next is unused exactly when no surviving rule was added
      with that id of its own. */
  lemma AssignedIdUnused(ops: seq<Op>)
    requires Autos(ops) < M32 - 1
    ensures var b := RunOps(ops);
      (forall k :: 0 <= k < |b.ages| ==> b.ages[k].rule.id != b.nextId)
      <==> (forall k :: 0 <= k < |b.ages| && !b.ages[k].auto ==> b.ages[k].rule.id != b.nextId)
  {
    RunNumbered(ops);
  }

  /** A rule added with id 1 of its own, then one without: both carry id 1. */
  lemma AssignedIdTaken(r: Rule, s: Rule)
    requires r.id == 1 && s.id == 0
    ensures var b := RunOps([Add(r), Add(s)]); |b.ages| == 2 && b.ages[0].rule.id == b.ages[1].rule.id == 1
  {
    assert [Add(r), Add(s)][..1] == [Add(r)] && [Add(r)][..0] == [];
    assert RunOps([Add(r)]) == Apply(Book([], 0, 1), Add(r));
  }

  /** An enabled path rule matches exactly the events with a path its pattern stands for, provided the
      pattern has at most 15 inner stars and no double star at its end; it never matches another. */
  lemma PathRuleMeans(r: Rule, e: AuditEvent)
    requires r.filter.ByPath?
    ensures Matching(r, e) ==> r.enabled && e.path != "" && AuditGlob.Matches(e.path, r.filter.pattern)
    ensures InnerStars(r.filter.pattern) <= 15 && !EndsInTwoStars(r.filter.pattern) ==>
      (Matching(r, e) <==> r.enabled && e.path != "" && AuditGlob.Matches(e.path, r.filter.pattern))
  {
    if GlobDepth(e.path, r.filter.pattern, 0) { GlobSound(e.path, r.filter.pattern); }
    GlobCompleteExactly(r.filter.pattern);
  }

  /** Each filter looks at its own field of the event and at no other; a disabled rule matches nothing. */
  lemma FieldsSeparate(r: Rule, e: AuditEvent, f: AuditEvent)
    ensures Matching(r, e.(eventType := f.eventType))
       <==> if r.filter.ByType? then r.enabled && f.eventType == r.filter.eventType else Matching(r, e)
    ensures Matching(r, e.(uid := f.uid))
       <==> if r.filter.ByUid? then r.enabled && f.uid == r.filter.uid else Matching(r, e)
    ensures Matching(r, e.(pid := f.pid))
       <==> if r.filter.ByPid? then r.enabled && f.pid == r.filter.pid else Matching(r, e)
    ensures Matching(r, e.(syscall := f.syscall))
       <==> if r.filter.BySyscall? then r.enabled && f.syscall == r.filter.syscall else Matching(r, e)
    ensures Matching(r, e.(path := f.path)) <==> if r.filter.ByPath? then Matching(r, f) else Matching(r, e)
    ensures Matching(r, e.(result := f.result))
       <==> if r.filter.ByResult? then r.enabled && f.result == r.filter.result else Matching(r, e)
    ensures Matching(r, e) ==> r.enabled && r.filter != Unknown
  {
  }

  /** A rule that matches nothing might as well not be there. */
  lemma {:induction false} SilentRule(ages: seq<Entry>, e: AuditEvent, k: nat)
    requires k < |ages| && !Matching(ages[k].rule, e)
    ensures Verdict(ages, e) == Verdict(ages[..k] + ages[k + 1..], e)
  {
    hide Matching;
    var rest := ages[..k] + ages[k + 1..];
    if k == 0 {
      assert rest == ages[1..];
    } else {
      assert rest[0] == ages[0] && rest[1..] == ages[1..][..k - 1] + ages[1..][k..];
      SilentRule(ages[1..], e, k - 1);
    }
  }

  /** For every event, switching a rule off decides as deleting it does.  Switching changes that one flag, and
      switching back restores the rules as they were. */
  lemma SwitchedOff(b: Book, id: nat, e: AuditEvent)
    ensures Verdict(Apply(b, SetEnabled(id, false)).ages, e) == Verdict(Apply(b, Delete(id)).ages, e)
    ensures var (k, on) := (Youngest(b.ages, id), Apply(b, SetEnabled(id, true)));
      && |on.ages| == |b.ages| && on == b.(ages := on.ages)
      && (k < |b.ages| ==> on.ages[k].rule.enabled && on.ages[k].birth == b.ages[k].birth)
      && Apply(Apply(b, SetEnabled(id, false)), SetEnabled(id, true)) == on
      && ((k < |b.ages| ==> b.ages[k].rule.enabled) ==> on == b)
  {
    hide Verdict;
    var k, off := Youngest(b.ages, id), Apply(b, SetEnabled(id, false));
    if k < |b.ages| {
      SilentRule(off.ages, e, k);
      assert off.ages[..k] + off.ages[k + 1..] == b.ages[..k] + b.ages[k + 1..];
      SameYoungest(b.ages, off.ages, id);
      var twice := Apply(off, SetEnabled(id, true));
      assert twice.ages == Apply(b, SetEnabled(id, true)).ages;
      if b.ages[k].rule.enabled { assert Apply(b, SetEnabled(id, true)).ages == b.ages; }
    }
  }

  lemma SameYoungest(a: seq<Entry>, b: seq<Entry>, id: nat)
    requires |a| == |b| && forall j :: 0 <= j < |a| ==> a[j].rule.id == b[j].rule.id
    ensures Youngest(a, id) == Youngest(b, id)
  {
    hide Youngest;
    var i, j := Youngest(a, id), Youngest(b, id);
    if i < |a| { assert b[i].rule.id == id; }
    if j < |a| { assert a[j].rule.id == id; }
  }

  lemma {:induction false} VerdictOf(ages: seq<Entry>, e: AuditEvent)
    ensures (forall k :: 0 <= k < |ages| ==> !Matching(ages[k].rule, e)) ==> Verdict(ages, e) == LOG
    ensures forall k ::
      (0 <= k < |ages| && Matching(ages[k].rule, e) && forall j :: 0 <= j < k ==> !Matching(ages[j].rule, e))
      ==> Verdict(ages, e) == ages[k].rule.action
  {
    if ages != [] {
      VerdictOf(ages[1..], e);
      forall k | 0 <= k < |ages| && Matching(ages[k].rule, e) && (forall j :: 0 <= j < k ==> !Matching(ages[j].rule, e))
        ensures Verdict(ages, e) == ages[k].rule.action
      {
        if k > 0 {
          assert forall j :: 0 <= j < k - 1 ==> ages[1..][j] == ages[j + 1];
          assert Matching(ages[1..][k - 1].rule, e);
        }
      }
    }
  }

  /** After any sequence of additions, deletions, switches and clears: if some surviving enabled
      rule matches, the verdict is the action of the one added first, otherwise LOG. */
  lemma EarliestRuleDecides(ops: seq<Op>, e: AuditEvent, k: nat)
    requires k < |RunOps(ops).ages| && Matching(RunOps(ops).ages[k].rule, e)
    requires forall j :: 0 <= j < |RunOps(ops).ages| && Matching(RunOps(ops).ages[j].rule, e)
               ==> RunOps(ops).ages[k].birth <= RunOps(ops).ages[j].birth
    ensures Verdict(RunOps(ops).ages, e) == RunOps(ops).ages[k].rule.action
  {
    RunOrdered(ops);
    VerdictOf(RunOps(ops).ages, e);
  }

  // ---------------------------------------------------------------- the list

  function Reversed<T>(s: seq<T>): (r: seq<T>)
    ensures |r| == |s| && forall i :: 0 <= i < |s| ==> r[i] == s[|s| - 1 - i]
  {
    seq(|s|, i requires 0 <= i < |s| => s[|s| - 1 - i])
  }

  function RulesOf(ages: seq<Entry>): (r: seq<Rule>)
    ensures |r| == |ages| && forall i :: 0 <= i < |ages| ==> r[i] == ages[i].rule
  {
    seq(|ages|, i requires 0 <= i < |ages| => ages[i].rule)
  }

  lemma FirstIsYoungest(list: seq<Rule>, ages: seq<Entry>, id: nat, i: nat)
    requires list == Reversed(RulesOf(ages)) && i <= |list|
    requires forall j :: 0 <= j < i ==> list[j].id != id
    requires i < |list| ==> list[i].id == id
    ensures |list| == |ages| && Youngest(ages, id) == if i < |list| then |list| - 1 - i else |list|
  {
    hide Youngest;
    var n, k := |ages|, Youngest(ages, id);
    forall j | 0 <= j < n ensures ages[j].rule == list[n - 1 - j] {
      assert list[n - 1 - j] == RulesOf(ages)[j];
    }
    assert i < n ==> ages[n - 1 - i].rule == list[i];
    assert k < n ==> list[n - 1 - k] == ages[k].rule;
  }

  /** Removing from the age order is removing from the reversed list. */
  lemma ReverseDelete(ages: seq<Entry>, k: nat)
    requires k < |ages|
    ensures var l := Reversed(RulesOf(ages));
            var i := |ages| - 1 - k;
            Reversed(RulesOf(ages[..k] + ages[k + 1..])) == l[..i] + l[i + 1..]
  {
    var l := Reversed(RulesOf(ages));
    var i := |ages| - 1 - k;
    var gone := ages[..k] + ages[k + 1..];
    var r := Reversed(RulesOf(gone));
    forall j | 0 <= j < |r| ensures r[j] == (l[..i] + l[i + 1..])[j] {
      assert r[j] == gone[|gone| - 1 - j].rule;
    }
  }

  class RuleList {
    var list: seq<Rule>     // from the head: youngest first
    var nextId: nat         // uint32_t
    var count: nat          // uint32_t
    ghost var book: Book

    ghost predicate Valid()
      reads this
    {
      list == Reversed(RulesOf(book.ages)) && nextId == book.nextId && count == |list| % M32
    }

    constructor ()
      ensures Valid() && book == RunOps([])
    {
      list, nextId, count := [], 1, 0;
      book := Book([], 0, 1);
    }

    /** Fails, changing nothing, when no memory is left. */
    method AddRule(rule: Rule, memory: bool) returns (id: int)
      requires Valid()
      modifies this
      ensures Valid() && book == if memory then Apply(old(book), Add(rule)) else old(book)
      ensures id == if !memory then -1 else book.ages[|book.ages| - 1].rule.id
    {
      if !memory { return -1; }
      var r := rule;
      if r.id == 0 {
        r := r.(id := nextId);
        nextId := (nextId + 1) % M32;
      }
      WrapCount(|list|);
      list := [r] + list;
      count := (count + 1) % M32;
      book := Apply(book, Add(rule));
      return r.id;
    }

    /** Position from the head of the first rule with this id, or the length. */
    method IndexOf(id: nat) returns (i: nat)
      requires Valid()
      ensures i <= |list| && |list| == |book.ages|
      ensures Youngest(book.ages, id) == if i < |list| then |list| - 1 - i else |list|
    {
      i := 0;
      while i < |list| && list[i].id != id
        invariant 0 <= i <= |list|
        invariant forall j :: 0 <= j < i ==> list[j].id != id
      {
        i := i + 1;
      }
      FirstIsYoungest(list, book.ages, id, i);
    }

    method DeleteRule(id: nat) returns (status: int)
      requires Valid()
      modifies this
      ensures Valid() && book == Apply(old(book), Delete(id))
      ensures status == if Youngest(old(book.ages), id) < |old(book.ages)| then 0 else -1
    {
      hide Reversed, RulesOf, Youngest;
      var i := IndexOf(id);
      if i == |list| { return -1; }
      ghost var n := |list|;
      ghost var k := n - 1 - i;
      UnwrapCount(n);
      ReverseDelete(book.ages, k);
      list := list[..i] + list[i + 1..];
      count := (count + M32 - 1) % M32;
      book := Apply(book, Delete(id));
      assert book.ages == old(book.ages)[..k] + old(book.ages)[k + 1..];
      return 0;
    }

    method SetRuleEnabled(id: nat, on: bool) returns (status: int)
      requires Valid()
      modifies this
      ensures Valid() && book == Apply(old(book), SetEnabled(id, on))
      ensures status == if Youngest(old(book.ages), id) < |old(book.ages)| then 0 else -1
    {
      var i := IndexOf(id);
      if i == |list| { return -1; }
      list := list[i := list[i].(enabled := on)];
      book := Apply(book, SetEnabled(id, on));
      return 0;
    }

    method ClearRules()
      requires Valid()
      modifies this
      ensures Valid() && book == Apply(old(book), ClearAll)
    {
      list, count := [], 0;
      book := Apply(book, ClearAll);
    }

    /** Last match in the list wins. */
    method Evaluate(e: AuditEvent) returns (action: Action)
      requires Valid()
      ensures action == Verdict(book.ages, e)
    {
      action := LOG;
      ghost var n := |list|;
      assert book.ages[n..] == [] && book.ages[0..] == book.ages;
      var i := 0;
      while i < |list|
        invariant 0 <= i <= n
        invariant action == Verdict(book.ages[n - i..], e)
      {
        var matched := Matches(list[i], e);
        assert book.ages[n - 1 - i..][1..] == book.ages[n - i..] && book.ages[n - 1 - i].rule == list[i];
        if matched {
          action := list[i].action;
        }
        i := i + 1;
      }
    }

    method Matches(r: Rule, e: AuditEvent) returns (m: bool)
      ensures m == Matching(r, e)
    {
      if !r.enabled { return false; }
      match r.filter {
        case ByType(t) => m := e.eventType == t;
        case ByUid(u) => m := e.uid == u;
        case ByPid(p) => m := e.pid == p;
        case BySyscall(s) => m := e.syscall == s;
        case ByPath(p) =>
          if e.path != "" { m := Glob(e.path, p, 0); } else { m := false; }
        case ByResult(x) => m := e.result == x;
        case Unknown => m := false;
      }
    }
  }

  lemma WrapCount(n: nat)
    ensures (n % M32 + 1) % M32 == (n + 1) % M32
  {
  }

  lemma UnwrapCount(n: nat)
    requires n > 0
    ensures (n % M32 + M32 - 1) % M32 == (n - 1) % M32
  {
  }
}
