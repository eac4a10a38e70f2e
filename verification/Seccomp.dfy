/**
 The classic-BPF filters of seccomp: the validator, and the interpreter that runs a filter
 on one system call. For programs the validator accepts, the interpreter's range check and
 instruction budget are never used: it computes what plain structural evaluation computes.
 */
module Seccomp {
  import opened Wrappers
  import opened Words

  const M32: nat := 0x1_0000_0000
  type u32 = n: nat | n < M32

  // Instruction classes; the remaining one, 7, moves values between the registers
  const LD := 0
  const LDX := 1
  const ST := 2
  const STX := 3
  const ALU := 4
  const JMP := 5
  const RET := 6

  // Load modes
  const IMM := 0x00
  const ABS := 0x20
  const IND := 0x40
  const MEM := 0x60
  const LEN := 0x80

  // Arithmetic operations
  const ADD := 0x00
  const SUB := 0x10
  const MUL := 0x20
  const DIV := 0x30
  const OR := 0x40
  const AND := 0x50
  const LSH := 0x60
  const RSH := 0x70
  const NEG := 0x80
  const MOD := 0x90
  const XOR := 0xa0

  // Jumps
  const JA := 0x00
  const JEQ := 0x10
  const JGT := 0x20
  const JGE := 0x30
  const JSET := 0x40

  // Operand and return sources
  const K := 0x00
  const X := 0x08
  const A := 0x10

  const TAX := 0x00
  const TXA := 0x80

  const RET_KILL: u32 := 0
  const DATA_LEN: u32 := 64
  const MEM_WORDS := 16
  const MAX_INSNS := 4096
  const BUDGET: nat := 1_000_000

  /** The fields of an instruction's code are groups of its bits: 0x07, 0xe0, 0xf0 and 0x08. */
  datatype Insn = Insn(code: nat, jt: byte, jf: byte, k: u32) {
    function Class(): (c: nat)
      ensures c < 8
    {
      code % 8
    }

    function Mode(): nat {
      code / 32 % 8 * 32
    }

    function Op(): nat {
      code / 16 % 16 * 16
    }

    function Src(): nat {
      code / 8 % 2 * 8
    }
  }

  /** What a filter looks at: call number, architecture, instruction pointer and six arguments. */
  datatype Data = Data(nr: u32, arch: u32, ip: nat, args: seq<nat>)

  /** A 32-bit read at a byte offset, with the offsets the interpreter knows. */
  function LoadU32(d: Data, offset: u32): Option<u32>
    requires |d.args| == 6
  {
    if offset == 0 then Some(d.nr)
    else if offset == 4 then Some(d.arch)
    else if 8 <= offset <= 11 then Some(d.ip / Pow2(8 * (offset - 8)) % 256)
    else if 12 <= offset <= 15 then (if offset + 4 <= 16 then Some(d.ip / Pow2(8 * (offset - 8)) % M32) else None)
    else if 16 <= offset <= 63 then Some(d.args[(offset - 16) / 8] / Pow2((offset - 16) % 8 * 8) % M32)
    else None
  }

  function OrZero(o: Option<u32>): u32 {
    if o.Some? then o.value else 0
  }

  // ---- Validation ----

  datatype Error =
    | TooLong
    | Empty
    | InvalidJump(pc: nat)
    | InvalidMemAccess(pc: nat)
    | InvalidLoadOffset(pc: nat)
    | NoReturnAtEnd
    | DivisionByConstantZero(pc: nat)

  /** What is wrong with the instruction at `pc` of a program of `len` instructions. */
  function Fault(insn: Insn, pc: nat, len: nat): Option<Error> {
    var c := insn.Class();
    if c == LD || c == LDX then
      if insn.Mode() == ABS && (insn.k + 4) % M32 > DATA_LEN then Some(InvalidLoadOffset(pc))
      else if insn.Mode() == MEM && insn.k >= MEM_WORDS then Some(InvalidMemAccess(pc))
      else None
    else if c == ST || c == STX then
      if insn.k >= MEM_WORDS then Some(InvalidMemAccess(pc)) else None
    else if c == ALU then
      if (insn.Op() == DIV || insn.Op() == MOD) && insn.Src() == K && insn.k == 0
      then Some(DivisionByConstantZero(pc)) else None
    else if c == JMP then
      if insn.Op() == JA then (if pc + 1 + insn.k >= len then Some(InvalidJump(pc)) else None)
      else if pc + 1 + insn.jt >= len || pc + 1 + insn.jf >= len then Some(InvalidJump(pc))
      else None
    else None
  }

  /** Programs that may be installed. */
  ghost predicate Accepted(prog: seq<Insn>) {
    && 0 < |prog| <= MAX_INSNS
    && (forall pc: nat :: pc < |prog| ==> Fault(prog[pc], pc, |prog|).None?)
    && prog[|prog| - 1].Class() == RET
  }

  ghost predicate FirstFault(insns: seq<Insn>, pc: nat)
    requires pc < |insns|
  {
    Fault(insns[pc], pc, |insns|).Some? && forall q: nat :: q < pc ==> Fault(insns[q], q, |insns|).None?
  }

  /** `None` when the program is accepted, otherwise the first thing wrong with it. */
  method Validate(insns: seq<Insn>) returns (r: Option<Error>)
    ensures r.None? <==> Accepted(insns)
    ensures r == Some(Empty) <==> insns == []
    ensures r == Some(TooLong) <==> |insns| > MAX_INSNS
    ensures forall pc: nat :: pc < |insns| <= MAX_INSNS && FirstFault(insns, pc) ==> r == Fault(insns[pc], pc, |insns|)
    ensures r == Some(NoReturnAtEnd) ==> forall pc: nat :: pc < |insns| ==> Fault(insns[pc], pc, |insns|).None?
  {
    if insns == [] { return Some(Empty); }
    if |insns| > MAX_INSNS { return Some(TooLong); }
    for pc := 0 to |insns|
      invariant forall q: nat :: q < pc ==> Fault(insns[q], q, |insns|).None?
    {
      r := CheckInsn(insns[pc], pc, |insns|);
      if r.Some? { return; }
    }
    if insns[|insns| - 1].Class() != RET { return Some(NoReturnAtEnd); }
    r := None;
  }

  method CheckInsn(insn: Insn, pc: nat, len: nat) returns (r: Option<Error>)
    ensures r == Fault(insn, pc, len)
    ensures r.Some? ==>
      r.value.InvalidJump? || r.value.InvalidMemAccess? || r.value.InvalidLoadOffset? || r.value.DivisionByConstantZero?
  {
    r := None;
    var c := insn.Class();
    if c == LD || c == LDX {
      if insn.Mode() == ABS || insn.Mode() == IND {
        if insn.Mode() == ABS && (insn.k + 4) % M32 > DATA_LEN { return Some(InvalidLoadOffset(pc)); }
      } else if insn.Mode() == MEM {
        if insn.k >= MEM_WORDS { return Some(InvalidMemAccess(pc)); }
      }
    } else if c == ST || c == STX {
      if insn.k >= MEM_WORDS { return Some(InvalidMemAccess(pc)); }
    } else if c == ALU {
      if (insn.Op() == DIV || insn.Op() == MOD) && insn.Src() == K && insn.k == 0 {
        return Some(DivisionByConstantZero(pc));
      }
    } else if c == JMP {
      if insn.Op() == JA {
        var target := pc + 1 + insn.k;
        if target >= len { return Some(InvalidJump(pc)); }
      } else {
        var jtTarget, jfTarget := pc + 1 + insn.jt, pc + 1 + insn.jf;
        if jtTarget >= len || jfTarget >= len { return Some(InvalidJump(pc)); }
      }
    }
  }

  // ---- One instruction ----

  lemma Pow2Of32()
    ensures Pow2(32) == M32
  {
    assert Pow2(8) == 256;
    assert Pow2(16) == 0x1_0000;
    assert Pow2(24) == 0x100_0000;
  }

  function BitOr(a: u32, b: u32): u32 {
    Pow2Of32();
    OrFits(a, b, 32);
    Or(a, b)
  }

  /** Bits of `a` outside the complement of `b`. */
  function BitAnd(a: u32, b: u32): u32 {
    AndNotFits(a, AndNot(a, b));
    AndNot(a, AndNot(a, b))
  }

  function BitXor(a: u32, b: u32): u32 {
    AndNotFits(a, b);
    AndNotFits(b, a);
    BitOr(AndNot(a, b), AndNot(b, a))
  }

  lemma BitAndBits(a: u32, b: u32, k: nat)
    ensures Bit(BitAnd(a, b), k) <==> Bit(a, k) && Bit(b, k)
  {
    AndNotBits(a, b, k);
    AndNotBits(a, AndNot(a, b), k);
  }

  lemma BitXorBits(a: u32, b: u32, k: nat)
    ensures Bit(BitXor(a, b), k) <==> (Bit(a, k) != Bit(b, k))
  {
    AndNotBits(a, b, k);
    AndNotBits(b, a, k);
    OrBits(AndNot(a, b), AndNot(b, a), k);
  }

  function ShiftLeft(a: u32, n: u32): u32 {
    if n < 32 then a * Pow2(n) % M32 else 0
  }

  function ShiftRight(a: u32, n: u32): u32 {
    if n < 32 then Quotient(a, Pow2(n)) else 0
  }

  function Quotient(a: u32, b: nat): (q: u32)
    requires b > 0
    ensures q <= a
  {
    QuotientFits(a / b, a % b, b, a);
    a / b
  }

  lemma QuotientFits(q: nat, r: nat, b: nat, a: nat)
    requires b > 0 && a == b * q + r
    ensures q <= a
  {
    assert (b - 1) * q >= 0;
  }

  function Remainder(a: u32, b: u32): (m: u32)
    requires b > 0
    ensures m < b
  {
    a % b
  }

  /** The new accumulator, or `None` for a zero divisor. */
  function Arith(op: nat, a: u32, src: u32): Option<u32> {
    if op == ADD then Some((a + src) % M32)
    else if op == SUB then Some((a + M32 - src) % M32)
    else if op == MUL then Some(a * src % M32)
    else if op == DIV then (if src != 0 then Some(Quotient(a, src)) else None)
    else if op == MOD then (if src != 0 then Some(Remainder(a, src)) else None)
    else if op == OR then Some(BitOr(a, src))
    else if op == AND then Some(BitAnd(a, src))
    else if op == XOR then Some(BitXor(a, src))
    else if op == LSH then Some(ShiftLeft(a, src))
    else if op == RSH then Some(ShiftRight(a, src))
    else if op == NEG then Some((M32 - a) % M32)
    else Some(a)
  }

  predicate Taken(op: nat, a: u32, src: u32) {
    if op == JEQ then a == src
    else if op == JGT then a > src
    else if op == JGE then a >= src
    else op == JSET && BitAnd(a, src) != 0
  }

  datatype Vm = Vm(a: u32, x: u32, mem: seq<u32>, pc: nat)

  const START := Vm(0, 0, seq(MEM_WORDS, _ => 0), 0)

  function Read(mem: seq<u32>, k: u32): u32 {
    if k < |mem| then mem[k] else 0
  }

  function Write(mem: seq<u32>, k: u32, v: u32): (r: seq<u32>)
    ensures |r| == |mem|
  {
    if k < |mem| then mem[k := v] else mem
  }

  function LoadA(insn: Insn, vm: Vm, d: Data): u32
    requires |d.args| == 6
  {
    var m := insn.Mode();
    if m == IMM then insn.k
    else if m == ABS then OrZero(LoadU32(d, insn.k))
    else if m == IND then OrZero(LoadU32(d, (vm.x + insn.k) % M32))
    else if m == MEM then Read(vm.mem, insn.k)
    else if m == LEN then DATA_LEN
    else 0
  }

  function LoadX(insn: Insn, vm: Vm): u32 {
    var m := insn.Mode();
    if m == IMM then insn.k
    else if m == MEM then Read(vm.mem, insn.k)
    else if m == LEN then DATA_LEN
    else 0
  }

  function Operand(insn: Insn, vm: Vm): u32 {
    if insn.Src() == X then vm.x else insn.k
  }

  datatype Outcome = Next(vm: Vm) | Halt(value: u32)

  function Step(insn: Insn, vm: Vm, d: Data): (o: Outcome)
    requires |d.args| == 6
    ensures o.Next? ==> |o.vm.mem| == |vm.mem|
  {
    var c := insn.Class();
    var after := vm.(pc := vm.pc + 1);
    if c == LD then Next(after.(a := LoadA(insn, vm, d)))
    else if c == LDX then Next(after.(x := LoadX(insn, vm)))
    else if c == ST then Next(after.(mem := Write(vm.mem, insn.k, vm.a)))
    else if c == STX then Next(after.(mem := Write(vm.mem, insn.k, vm.x)))
    else if c == ALU then
      (match Arith(insn.Op(), vm.a, Operand(insn, vm)) case Some(v) => Next(after.(a := v)) case None => Halt(RET_KILL))
    else if c == JMP then
      if insn.Op() == JA then Next(vm.(pc := vm.pc + 1 + insn.k))
      else Next(vm.(pc := vm.pc + 1 + if Taken(insn.Op(), vm.a, Operand(insn, vm)) then insn.jt else insn.jf))
    else if c == RET then Halt(if insn.Src() == A then vm.a else insn.k)
    else if insn.Op() == TAX then Next(after.(x := vm.a))
    else if insn.Op() == TXA then Next(after.(a := vm.x))
    else Next(after)
  }

  // ---- Running a program ----

  /** The interpreter's loop: range check, budget, one instruction. */
  function Execute(prog: seq<Insn>, vm: Vm, d: Data, budget: nat): u32
    requires |d.args| == 6
    decreases budget
  {
    if vm.pc >= |prog| || budget == 0 then RET_KILL
    else
      match Step(prog[vm.pc], vm, d)
      case Next(next) => Execute(prog, next, d, budget - 1)
      case Halt(v) => v
  }

  /** In an accepted program a step moves forward and stays inside, or the run ends at a return or a zero divisor. */
  lemma StepForward(prog: seq<Insn>, vm: Vm, d: Data)
    requires Accepted(prog) && vm.pc < |prog| && |d.args| == 6
    ensures match Step(prog[vm.pc], vm, d)
            case Next(next) => vm.pc < next.pc < |prog|
            case Halt(v) => prog[vm.pc].Class() == RET || (v == RET_KILL && ZeroDivisor(prog[vm.pc], vm))
  {
    hide Arith, Taken, LoadA, LoadX, Insn.Mode;
    var insn := prog[vm.pc];
    assert Fault(insn, vm.pc, |prog|).None?;
    if insn.Class() == ALU { ArithHalts(insn.Op(), vm.a, Operand(insn, vm)); }
  }

  /** A division or modulo whose operand, the index register, is zero. */
  predicate ZeroDivisor(insn: Insn, vm: Vm) {
    insn.Class() == ALU && (insn.Op() == DIV || insn.Op() == MOD) && insn.Src() == X && vm.x == 0
  }

  lemma ArithHalts(op: nat, a: u32, src: u32)
    ensures Arith(op, a, src).None? <==> (op == DIV || op == MOD) && src == 0
  {
  }

  /** Evaluation of an accepted program, with neither range check nor budget. */
  function Eval(prog: seq<Insn>, vm: Vm, d: Data): u32
    requires Accepted(prog) && vm.pc < |prog| && |d.args| == 6
    decreases |prog| - vm.pc
  {
    StepForward(prog, vm, d);
    match Step(prog[vm.pc], vm, d)
    case Next(next) => Eval(prog, next, d)
    case Halt(v) => v
  }

  /** With as many instructions left as the program is long, the budget is never reached. */
  lemma {:induction false} ExecuteIsEval(prog: seq<Insn>, vm: Vm, d: Data, budget: nat)
    requires Accepted(prog) && vm.pc < |prog| && |d.args| == 6 && budget >= |prog| - vm.pc
    ensures Execute(prog, vm, d, budget) == Eval(prog, vm, d)
    decreases |prog| - vm.pc
  {
    hide Step, Accepted;
    StepForward(prog, vm, d);
    match Step(prog[vm.pc], vm, d) {
      case Next(next) => ExecuteIsEval(prog, next, d, budget - 1);
      case Halt(_) =>
    }
  }

  /** The states an accepted program goes through. */
  ghost function Trace(prog: seq<Insn>, vm: Vm, d: Data): (t: seq<Vm>)
    requires Accepted(prog) && vm.pc < |prog| && |d.args| == 6
    ensures t != [] && t[0] == vm
    decreases |prog| - vm.pc
  {
    StepForward(prog, vm, d);
    match Step(prog[vm.pc], vm, d)
    case Next(next) => [vm] + Trace(prog, next, d)
    case Halt(_) => [vm]
  }

  /** The scratch word an instruction reads or writes. */
  function Scratch(insn: Insn): Option<nat> {
    var c := insn.Class();
    if c == ST || c == STX || ((c == LD || c == LDX) && insn.Mode() == MEM) then Some(insn.k) else None
  }

  /** What every state of a run of an accepted program satisfies. */
  ghost predicate Safe(prog: seq<Insn>, vm: Vm) {
    && vm.pc < |prog| && |vm.mem| == MEM_WORDS
    && (Scratch(prog[vm.pc]).Some? ==> Scratch(prog[vm.pc]).value < MEM_WORDS)
  }

  lemma AcceptedSafe(prog: seq<Insn>, vm: Vm)
    requires Accepted(prog) && vm.pc < |prog| && |vm.mem| == MEM_WORDS
    ensures Safe(prog, vm)
  {
    assert Fault(prog[vm.pc], vm.pc, |prog|).None?;
  }

  /**
   A run of an accepted program stays inside it, touches scratch words 0 to 15 only, moves
   forward at every step, takes at most as many steps as there are instructions left, and
   ends at a return or at a division by a zero index register.
   */
  lemma {:induction false} TraceSafe(prog: seq<Insn>, vm: Vm, d: Data)
    requires Accepted(prog) && vm.pc < |prog| && |vm.mem| == MEM_WORDS && |d.args| == 6
    ensures var t := Trace(prog, vm, d);
            && |t| <= |prog| - vm.pc
            && (forall i :: 0 <= i < |t| ==> Safe(prog, t[i]))
            && (forall i, j :: 0 <= i < j < |t| ==> t[i].pc < t[j].pc)
            && (prog[t[|t| - 1].pc].Class() == RET || ZeroDivisor(prog[t[|t| - 1].pc], t[|t| - 1]))
            && Step(prog[t[|t| - 1].pc], t[|t| - 1], d) == Halt(Eval(prog, vm, d))
    decreases |prog| - vm.pc
  {
    hide Step, Accepted, Safe;
    StepForward(prog, vm, d);
    AcceptedSafe(prog, vm);
    match Step(prog[vm.pc], vm, d) {
      case Next(next) =>
        TraceSafe(prog, next, d);
        var rest := Trace(prog, next, d);
        forall i | 0 <= i < |rest| ensures vm.pc < rest[i].pc && next.pc <= rest[i].pc { assert rest[0] == next; }
      case Halt(_) =>
    }
  }

  /** One instruction on the interpreter's registers; `value` is set when the run ends. */
  method Interpret(
      insn: Insn, a0: u32, x0: u32, mem: array<u32>, pc0: nat,
      d: Data) returns (a: u32, x: u32, pc: nat, value: Option<u32>)
    requires |d.args| == 6 && mem.Length == MEM_WORDS
    modifies mem
    ensures match Step(insn, Vm(a0, x0, old(mem[..]), pc0), d)
            case Next(vm) => value == None && Vm(a, x, mem[..], pc) == vm
            case Halt(v) => value == Some(v)
  {
    hide Arith, Taken, LoadU32;
    a, x, pc, value := a0, x0, pc0, None;
    var c := insn.Class();
    if c == LD {
      var m := insn.Mode();
      if m == IMM { a := insn.k; }
      else if m == ABS { a := OrZero(LoadU32(d, insn.k)); }
      else if m == IND { a := OrZero(LoadU32(d, (x + insn.k) % M32)); }
      else if m == MEM { a := if insn.k < MEM_WORDS then mem[insn.k] else 0; }
      else if m == LEN { a := DATA_LEN; }
      else { a := 0; }
    } else if c == LDX {
      var m := insn.Mode();
      if m == IMM { x := insn.k; }
      else if m == MEM { x := if insn.k < MEM_WORDS then mem[insn.k] else 0; }
      else if m == LEN { x := DATA_LEN; }
      else { x := 0; }
    } else if c == ST {
      if insn.k < MEM_WORDS { mem[insn.k] := a; }
    } else if c == STX {
      if insn.k < MEM_WORDS { mem[insn.k] := x; }
    } else if c == ALU {
      var src := if insn.Src() == X then x else insn.k;
      match Arith(insn.Op(), a, src) {
        case Some(v) => a := v;
        case None => value := Some(RET_KILL);
      }
    } else if c == JMP {
      var src := if insn.Src() == X then x else insn.k;
      if insn.Op() == JA {
        pc := pc + 1 + insn.k;
      } else {
        pc := pc + 1 + if Taken(insn.Op(), a, src) then insn.jt else insn.jf;
      }
      return;
    } else if c == RET {
      value := Some(if insn.Src() == A then a else insn.k);
    } else {
      if insn.Op() == TAX { x := a; }
      else if insn.Op() == TXA { a := x; }
    }
    pc := pc + 1;
  }

  /** The interpreter: on accepted programs, plain evaluation. */
  method Run(prog: seq<Insn>, d: Data) returns (r: u32)
    requires |d.args| == 6
    ensures r == Execute(prog, START, d, BUDGET)
    ensures Accepted(prog) ==> r == Eval(prog, START, d)
  {
    hide Step, Accepted;
    var a: u32, x: u32, pc: nat := 0, 0, 0;
    var mem: array<u32> := new u32[MEM_WORDS](_ => 0);
    var budget := BUDGET;
    assert mem[..] == START.mem;
    while true
      invariant mem.Length == MEM_WORDS && fresh(mem)
      invariant Execute(prog, Vm(a, x, mem[..], pc), d, budget) == Execute(prog, START, d, BUDGET)
      decreases budget
    {
      if pc >= |prog| || budget == 0 {
        r := RET_KILL;
        break;
      }
      budget := budget - 1;
      var value;
      a, x, pc, value := Interpret(prog[pc], a, x, mem, pc, d);
      if value.Some? {
        r := value.value;
        break;
      }
    }
    if Accepted(prog) { AcceptedFits(prog); ExecuteIsEval(prog, START, d, BUDGET); }
  }

  lemma AcceptedFits(prog: seq<Insn>)
    requires Accepted(prog)
    ensures 0 < |prog| <= BUDGET
  {
  }

  /** The verdict of an accepted program is to kill, or the constant of one of its return instructions. */
  lemma {:induction false} VerdictIsConstant(prog: seq<Insn>, vm: Vm, d: Data)
    requires Accepted(prog) && vm.pc < |prog| && |d.args| == 6
    ensures var v := Eval(prog, vm, d);
      v == RET_KILL || exists pc: nat :: pc < |prog| && prog[pc].Class() == RET && v == prog[pc].k
    decreases |prog| - vm.pc
  {
    StepForward(prog, vm, d);
    match Step(prog[vm.pc], vm, d) {
      case Next(next) => VerdictIsConstant(prog, next, d);
      case Halt(_) => assert prog[vm.pc].Class() == RET ==> Step(prog[vm.pc], vm, d) == Halt(prog[vm.pc].k);
    }
  }

  /** Absolute loads of an accepted program lie in the call's data, or among the four highest offsets, and read zero. */
  lemma AcceptedLoads(prog: seq<Insn>, pc: nat, d: Data)
    requires Accepted(prog) && pc < |prog| && |d.args| == 6
    requires prog[pc].Class() == LD && prog[pc].Mode() == ABS
    ensures prog[pc].k + 4 <= DATA_LEN || (prog[pc].k >= M32 - 4 && LoadU32(d, prog[pc].k) == None)
  {
    assert Fault(prog[pc], pc, |prog|).None?;
  }

  /** Load 7 and return the accumulator. */
  function ReturnAccumulator(): seq<Insn> {
    [Insn(LD + IMM, 0, 0, 7), Insn(RET + A, 0, 0, 0)]
  }

  /** The program is accepted and has 7 in the accumulator when it returns, but its verdict is 0. */
  lemma AccumulatorNotReturned(d: Data)
    requires |d.args| == 6
    ensures var prog := ReturnAccumulator();
      && Accepted(prog)
      && Trace(prog, START, d) == [START, START.(a := 7, pc := 1)]
      && Eval(prog, START, d) == 0
  {
    var prog := ReturnAccumulator();
    assert prog[0].Class() == LD && prog[0].Mode() == IMM && prog[1].Class() == RET && prog[1].Src() == K;
    var next := START.(a := 7, pc := 1);
    assert Step(prog[0], START, d) == Next(next);
    assert Step(prog[1], next, d) == Halt(0);
    assert Trace(prog, next, d) == [next];
  }
}
