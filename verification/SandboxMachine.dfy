/** Classic BPF as the sandbox compiler uses it: instructions, a machine that runs them, the
    compiler's validator and its binary encoding. */
module SandboxMachine {
  import opened Common
  import opened Bits

  datatype Insn = Insn(code: nat, jt: nat, jf: nat, k: nat)

  const LD := 0
  const JMP := 5
  const RET := 6

  function Class(i: Insn): nat { i.code % 8 }

  /** What is read from the syscall record: `ld(width, offset)`. */
  type Input = (nat, nat) -> nat

  datatype Outcome =
    | Returned(value: nat, steps: nat)
    | OffEnd       // the program counter left the program
    | BadInsn      // an instruction this machine does not have

  /** Width in bytes selected by the size bits: word, half-word, byte. */
  function Width(i: Insn): nat {
    if i.code / 8 % 4 == 0 then 4 else if i.code / 8 % 4 == 1 then 2 else 1
  }

  predicate LoadAbs(i: Insn) { Class(i) == LD && i.code / 32 % 8 == 1 }
  predicate LoadImm(i: Insn) { Class(i) == LD && i.code / 32 % 8 == 0 }
  predicate Jump(i: Insn) { Class(i) == JMP }
  predicate KnownJump(i: Insn) { Jump(i) && 1 <= i.code / 16 % 16 <= 4 }
  predicate Return(i: Insn) { Class(i) == RET }

  /** The loads, conditional jumps and returns of the instruction set. */
  predicate Known(i: Insn) { LoadAbs(i) || LoadImm(i) || KnownJump(i) || Return(i) }

  /** JEQ, JGT, JGE, JSET; the index register is never loaded, so it holds 0. */
  predicate Taken(i: Insn, a: nat) {
    var x := if i.code / 8 % 2 == 1 then 0 else i.k;
    var op := i.code / 16 % 16;
    if op == 1 then a == x else if op == 2 then a > x else if op == 3 then a >= x else And(a, x) != 0
  }

  function ReturnValue(i: Insn, a: nat): nat {
    if i.code / 8 % 4 == 0 then i.k else if i.code / 8 % 4 == 2 then a else 0
  }

  /** Run from instruction pc with accumulator a; jumps only go forward. */
  function Run(p: seq<Insn>, ld: Input, pc: nat, a: nat, steps: nat): (r: Outcome)
    decreases |p| - pc
  {
    if pc >= |p| then OffEnd
    else
      var i := p[pc];
      if Return(i) then Returned(ReturnValue(i, a), steps + 1)
      else if LoadAbs(i) then Run(p, ld, pc + 1, ld(Width(i), i.k), steps + 1)
      else if LoadImm(i) then Run(p, ld, pc + 1, i.k, steps + 1)
      else if KnownJump(i) then Run(p, ld, pc + 1 + (if Taken(i, a) then i.jt else i.jf), a, steps + 1)
      else BadInsn
  }

  // ---------------------------------------------------------------- validator

  predicate JumpInside(p: seq<Insn>, i: nat)
    requires i < |p|
  {
    Jump(p[i]) ==> i + p[i].jt + 1 < |p| && i + p[i].jf + 1 < |p|
  }

  /** What validate checks: nonempty, ends in RET, every jump target inside. */
  predicate Accepted(p: seq<Insn>) {
    && p != []
    && Return(p[|p| - 1])
    && forall i :: 0 <= i < |p| ==> JumpInside(p, i)
  }

  method Validate(p: seq<Insn>) returns (ok: bool)
    ensures ok <==> Accepted(p)
  {
    if |p| == 0 { return false; }
    if p[|p| - 1].code % 8 != RET { return false; }
    for i := 0 to |p|
      invariant forall j :: 0 <= j < i ==> JumpInside(p, j)
    {
      var insn := p[i];
      if insn.code % 8 == JMP {
        var jtTarget := i + insn.jt + 1;
        var jfTarget := i + insn.jf + 1;
        if jtTarget >= |p| || jfTarget >= |p| {
          assert !JumpInside(p, i);
          return false;
        }
      }
    }
    return true;
  }

  /** Every accepted program of known instructions, on every input, stays inside and returns
      within as many steps as it has instructions. */
  lemma AcceptedReturns(p: seq<Insn>, ld: Input)
    requires Accepted(p) && forall i :: 0 <= i < |p| ==> Known(p[i])
    ensures Run(p, ld, 0, 0, 0).Returned? && Run(p, ld, 0, 0, 0).steps <= |p|
  {
    AcceptedRuns(p, ld, 0, 0, 0);
  }

  lemma {:induction false} AcceptedRuns(p: seq<Insn>, ld: Input, pc: nat, a: nat, steps: nat)
    requires Accepted(p) && (forall i :: 0 <= i < |p| ==> Known(p[i])) && pc < |p|
    ensures var r := Run(p, ld, pc, a, steps); r.Returned? && r.steps <= steps + |p| - pc
    decreases |p| - pc
  {
    var i := p[pc];
    assert JumpInside(p, pc) && Known(i);
    if !Return(i) {
      if LoadAbs(i) {
        AcceptedRuns(p, ld, pc + 1, ld(Width(i), i.k), steps + 1);
      } else if LoadImm(i) {
        AcceptedRuns(p, ld, pc + 1, i.k, steps + 1);
      } else {
        AcceptedRuns(p, ld, pc + 1 + (if Taken(i, a) then i.jt else i.jf), a, steps + 1);
      }
    }
  }

  // ---------------------------------------------------------------- encoding

  predicate Fits(i: Insn) {
    i.code < 0x1_0000 && i.jt < 0x100 && i.jf < 0x100 && i.k < 0x1_0000_0000
  }

  /** Little-endian u16, u8, u8, u32; packing a value that does not fit is an error. */
  function Encode(i: Insn): (r: Option<seq<nat>>)
    ensures r.Some? <==> Fits(i)
    ensures r.Some? ==> |r.value| == 8 && forall j :: 0 <= j < 8 ==> r.value[j] < 256
  {
    if !Fits(i) then None
    else Some([i.code % 256, i.code / 256, i.jt, i.jf,
               i.k % 256, i.k / 256 % 256, i.k / 0x1_0000 % 256, i.k / 0x100_0000])
  }

  /** The file write_binary produces. */
  function EncodeAll(p: seq<Insn>): (r: Option<seq<nat>>) {
    if p == [] then Some([])
    else match (Encode(p[0]), EncodeAll(p[1..]))
      case (Some(x), Some(rest)) => Some(x + rest)
      case _ => None
  }

  function Decode(b: seq<nat>): (i: Insn)
    requires |b| == 8
  {
    Insn(b[0] + 256 * b[1], b[2], b[3], b[4] + 256 * b[5] + 0x1_0000 * b[6] + 0x100_0000 * b[7])
  }

  function DecodeAll(b: seq<nat>): (r: Option<seq<Insn>>) {
    if b == [] then Some([])
    else if |b| < 8 then None
    else match DecodeAll(b[8..])
      case None => None
      case Some(rest) => Some([Decode(b[..8])] + rest)
  }

  lemma DecodeEncode(i: Insn)
    requires Fits(i)
    ensures Decode(Encode(i).value) == i
  {
    var k := i.k;
    DivDiv(k, 256, 256);
    DivDiv(k, 0x1_0000, 256);
  }

  /** An encoded program decodes to itself, and encoding succeeds exactly when every field fits. */
  lemma {:induction false} DecodeAllEncodeAll(p: seq<Insn>)
    ensures EncodeAll(p).Some? <==> forall j :: 0 <= j < |p| ==> Fits(p[j])
    ensures EncodeAll(p).Some? ==> |EncodeAll(p).value| == 8 * |p| && DecodeAll(EncodeAll(p).value) == Some(p)
  {
    if p != [] {
      DecodeAllEncodeAll(p[1..]);
      if EncodeAll(p).Some? {
        DecodeEncode(p[0]);
        var b := EncodeAll(p).value;
        assert b[..8] == Encode(p[0]).value && b[8..] == EncodeAll(p[1..]).value;
        assert [p[0]] + p[1..] == p;
        forall j | 0 <= j < |p| ensures Fits(p[j]) {
          if j > 0 { assert Fits(p[1..][j - 1]); }
        }
      } else if Fits(p[0]) {
        var j :| 0 <= j < |p[1..]| && !Fits(p[1..][j]);
        assert !Fits(p[j + 1]);
      }
    }
  }
}
