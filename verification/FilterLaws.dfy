/**
 What the instructions of a filter mean, said of verdicts and of single steps: when each jump
 is taken, which number each arithmetic operation leaves, what a load delivers, and which
 operands the validator lets through. Operations are given by their codes.
 */
module FilterLaws {
  import opened Wrappers
  import opened Words
  import opened Seccomp

  // ---- Arithmetic ----

  /** `p` exceeds `r` by a multiple of 2^32. */
  predicate Wraps(p: nat, c: nat, r: nat) {
    p == r + c * M32
  }

  predicate Divides(a: nat, s: nat, q: nat, m: nat) {
    m < s && a == q * s + m
  }

  /** `r` is the result of operation `op` on the accumulator `a` and the operand `s`. */
  ghost predicate Result(op: nat, a: u32, s: u32, r: u32) {
    match op
    case 0x00 => r == a + s || r + M32 == a + s
    case 0x10 => r + s == a || r + s == a + M32
    case 0x20 => exists c: nat :: Wraps(a * s, c, r)
    case 0x30 => exists m: nat :: Divides(a, s, r, m)
    case 0x90 => exists q: nat :: Divides(a, s, q, r)
    case 0x40 => forall k: nat :: Bit(r, k) <==> Bit(a, k) || Bit(s, k)
    case 0x50 => forall k: nat :: Bit(r, k) <==> Bit(a, k) && Bit(s, k)
    case 0xa0 => forall k: nat :: Bit(r, k) <==> (Bit(a, k) != Bit(s, k))
    case 0x60 => forall k: nat :: Bit(r, k) <==> s <= k < 32 && Bit(a, k - s)
    case 0x70 => forall k: nat :: Bit(r, k) <==> Bit(a, k + s)
    case 0x80 => r + a == 0 || r + a == M32
    case _ => r == a
  }

  lemma OneWrap(p: nat, c: nat, r: u32, d: nat, q: u32)
    requires Wraps(p, c, r) && Wraps(p, d, q)
    ensures r == q
  {
  }

  lemma OneDivision(a: nat, s: nat, q: nat, m: nat, q': nat, m': nat)
    requires Divides(a, s, q, m) && Divides(a, s, q', m')
    ensures q == q' && m == m'
  {
    QuotientIs(a, s, q, m) by { assert a == s * q + m; }
    QuotientIs(a, s, q', m') by { assert a == s * q' + m'; }
  }

  /** The result is one number. */
  lemma OneResult(op: nat, a: u32, s: u32, r: u32, q: u32)
    requires Result(op, a, s, r) && Result(op, a, s, q)
    ensures r == q
  {
    hide Bit, Divides, Wraps;
    if op == 0x20 {
      var c: nat :| Wraps(a * s, c, r);
      var d: nat :| Wraps(a * s, d, q);
      OneWrap(a * s, c, r, d, q);
    } else if op == 0x30 {
      var m: nat :| Divides(a, s, r, m);
      var n: nat :| Divides(a, s, q, n);
      OneDivision(a, s, r, m, q, n);
    } else if op == 0x90 {
      var m: nat :| Divides(a, s, m, r);
      var n: nat :| Divides(a, s, n, q);
      OneDivision(a, s, m, r, n, q);
    } else if op in {0x40, 0x50, 0xa0, 0x60, 0x70} {
      SameBits(r, q);
    }
  }

  lemma OrIs(a: u32, s: u32)
    ensures Result(0x40, a, s, BitOr(a, s))
  {
    forall k: nat ensures Bit(BitOr(a, s), k) <==> Bit(a, k) || Bit(s, k) { OrBits(a, s, k); }
  }

  lemma AndIs(a: u32, s: u32)
    ensures Result(0x50, a, s, BitAnd(a, s))
  {
    forall k: nat ensures Bit(BitAnd(a, s), k) <==> Bit(a, k) && Bit(s, k) { BitAndBits(a, s, k); }
  }

  lemma XorIs(a: u32, s: u32)
    ensures Result(0xa0, a, s, BitXor(a, s))
  {
    forall k: nat ensures Bit(BitXor(a, s), k) <==> (Bit(a, k) != Bit(s, k)) { BitXorBits(a, s, k); }
  }

  /** A 32-bit number has no bit from 32 on. */
  lemma HighBits(a: u32, k: nat)
    ensures Bit(a, k) ==> k < 32
  {
    Pow2Of32();
    RemainderBits(a, 32, k);
  }

  lemma ShiftLeftIs(a: u32, s: u32)
    ensures Result(0x60, a, s, ShiftLeft(a, s))
  {
    forall k: nat ensures Bit(ShiftLeft(a, s), k) <==> s <= k < 32 && Bit(a, k - s) {
      if s < 32 {
        Pow2Of32();
        RemainderBits(a * Pow2(s), 32, k);
        ProductBits(a, s, k);
      } else {
        ZeroHasNoBits(k);
      }
    }
  }

  lemma ShiftRightIs(a: u32, s: u32)
    ensures Result(0x70, a, s, ShiftRight(a, s))
  {
    forall k: nat ensures Bit(ShiftRight(a, s), k) <==> Bit(a, k + s) {
      if s < 32 {
        QuotientBits(a, s, ShiftRight(a, s), k);
      } else {
        ZeroHasNoBits(k);
        HighBits(a, k + s);
      }
    }
  }

  lemma ProductIs(a: u32, s: u32)
    ensures Result(0x20, a, s, a * s % M32)
  {
    assert Wraps(a * s, a * s / M32, a * s % M32);
  }

  lemma DivisionIs(a: u32, s: u32)
    requires s != 0
    ensures Result(0x30, a, s, Quotient(a, s)) && Result(0x90, a, s, Remainder(a, s))
  {
    assert Divides(a, s, Quotient(a, s), Remainder(a, s)) by { assert a == s * (a / s) + a % s; }
  }

  lemma SumsAre(a: u32, s: u32)
    ensures Result(0x00, a, s, (a + s) % M32) && Result(0x10, a, s, (a + M32 - s) % M32)
    ensures Result(0x80, a, s, (M32 - a) % M32)
  {
  }

  lemma OthersKeep(op: nat, a: u32, s: u32)
    requires op !in {0x00, 0x10, 0x20, 0x30, 0x40, 0x50, 0x60, 0x70, 0x80, 0x90, 0xa0}
    ensures Result(op, a, s, a)
  {
  }

  /** The operation leaves its result, except that nothing is divided by zero. */
  lemma ArithIs(op: nat, a: u32, s: u32)
    ensures Arith(op, a, s).None? <==> (op == 0x30 || op == 0x90) && s == 0
    ensures Arith(op, a, s).Some? ==> Result(op, a, s, Arith(op, a, s).value)
  {
    hide Result, BitOr, BitAnd, BitXor, ShiftLeft, ShiftRight, Quotient, Remainder;
    if op in {0x00, 0x10, 0x80} { SumsAre(a, s); }
    else if op == 0x20 { ProductIs(a, s); }
    else if op in {0x30, 0x90} { if s != 0 { DivisionIs(a, s); } }
    else if op == 0x40 { OrIs(a, s); }
    else if op == 0x50 { AndIs(a, s); }
    else if op == 0x60 { ShiftLeftIs(a, s); }
    else if op == 0x70 { ShiftRightIs(a, s); }
    else if op == 0xa0 { XorIs(a, s); }
    else { OthersKeep(op, a, s); }
  }

  // ---- Jumps ----

  /** The comparison a jump makes. */
  ghost predicate Compares(op: nat, a: u32, s: u32) {
    match op
    case 0x10 => a == s
    case 0x20 => s < a
    case 0x30 => s <= a
    case 0x40 => SharesBit(a, s)
    case _ => false
  }

  ghost predicate SharesBit(a: nat, s: nat) {
    exists k: nat :: Bit(a, k) && Bit(s, k)
  }

  lemma TakenIs(op: nat, a: u32, s: u32)
    ensures Taken(op, a, s) <==> Compares(op, a, s)
  {
    hide BitAnd, SharesBit;
    AndIsNonzero(a, s);
  }

  lemma AndIsNonzero(a: u32, s: u32)
    ensures BitAnd(a, s) != 0 <==> SharesBit(a, s)
  {
    hide BitAnd;
    var both := BitAnd(a, s);
    if both != 0 {
      var k := TrailingZeros(both);
      BitAndBits(a, s, k);
    }
    forall k: nat | Bit(a, k) && Bit(s, k) ensures both != 0 {
      BitAndBits(a, s, k);
      ZeroHasNoBits(k);
    }
  }

  // ---- Steps; bit 3 of the code chooses the index register as operand ----

  function OperandOf(insn: Insn, vm: Vm): u32 {
    if insn.code / 8 % 2 == 1 then vm.x else insn.k
  }

  /** Codes that end in 4 or c: the accumulator gets the result and nothing else changes, or the run ends with 0. */
  lemma ArithStep(insn: Insn, vm: Vm, d: Data)
    requires |d.args| == 6 && insn.code % 8 == 4
    ensures var op, s := insn.code / 16 % 16 * 16, OperandOf(insn, vm);
      match Step(insn, vm, d)
      case Next(next) => Result(op, vm.a, s, next.a) && next == vm.(a := next.a, pc := vm.pc + 1)
      case Halt(v) => v == 0 && s == 0 && (op == 0x30 || op == 0x90)
  {
    hide Arith, Result;
    ArithIs(insn.code / 16 % 16 * 16, vm.a, OperandOf(insn, vm));
  }

  /** Codes that end in 5 or d: on to `jt` or `jf` by the comparison, and nothing else changes. */
  lemma JumpStep(insn: Insn, vm: Vm, d: Data)
    requires |d.args| == 6 && insn.code % 8 == 5
    ensures var op, s := insn.code / 16 % 16 * 16, OperandOf(insn, vm);
      Step(insn, vm, d) == Next(vm.(pc := vm.pc + 1 +
        if op == 0 then insn.k else if Compares(op, vm.a, s) then insn.jt else insn.jf))
  {
    hide Taken, Compares;
    TakenIs(insn.code / 16 % 16 * 16, vm.a, OperandOf(insn, vm));
  }

  /** Loads of constants and scratch words, stores to them, and moves between the registers. */
  lemma MoveSteps(vm: Vm, k: u32, d: Data)
    requires |d.args| == 6 && |vm.mem| == 16
    ensures Step(Insn(0x00, 0, 0, k), vm, d) == Next(vm.(a := k, pc := vm.pc + 1))
    ensures Step(Insn(0x01, 0, 0, k), vm, d) == Next(vm.(x := k, pc := vm.pc + 1))
    ensures k < 16 ==> Step(Insn(0x02, 0, 0, k), vm, d) == Next(vm.(mem := vm.mem[k := vm.a], pc := vm.pc + 1))
    ensures k < 16 ==> Step(Insn(0x03, 0, 0, k), vm, d) == Next(vm.(mem := vm.mem[k := vm.x], pc := vm.pc + 1))
    ensures k < 16 ==> Step(Insn(0x60, 0, 0, k), vm, d) == Next(vm.(a := vm.mem[k], pc := vm.pc + 1))
    ensures k < 16 ==> Step(Insn(0x61, 0, 0, k), vm, d) == Next(vm.(x := vm.mem[k], pc := vm.pc + 1))
    ensures Step(Insn(0x07, 0, 0, k), vm, d) == Next(vm.(x := vm.a, pc := vm.pc + 1))
    ensures Step(Insn(0x87, 0, 0, k), vm, d) == Next(vm.(a := vm.x, pc := vm.pc + 1))
    ensures Step(Insn(0x80, 0, 0, k), vm, d) == Next(vm.(a := 64, pc := vm.pc + 1))
  {
    hide LoadU32;
  }

  // ---- Verdicts ----

  lemma EvalNext(prog: seq<Insn>, vm: Vm, next: Vm, d: Data)
    requires Accepted(prog) && vm.pc < |prog| && |d.args| == 6 && Step(prog[vm.pc], vm, d) == Next(next)
    ensures next.pc < |prog| && Eval(prog, vm, d) == Eval(prog, next, d)
  {
    hide Step, Accepted;
    StepForward(prog, vm, d);
  }

  /** The program takes these states one after another. */
  ghost predicate Path(prog: seq<Insn>, states: seq<Vm>, d: Data)
    requires |d.args| == 6
  {
    && states != [] && (forall i :: 0 <= i < |states| ==> states[i].pc < |prog|)
    && forall i :: 0 <= i < |states| - 1 ==> Step(prog[states[i].pc], states[i], d) == Next(states[i + 1])
  }

  lemma {:induction false} EvalPath(prog: seq<Insn>, states: seq<Vm>, d: Data)
    requires |d.args| == 6 && Accepted(prog) && Path(prog, states, d)
    ensures Eval(prog, states[0], d) == Eval(prog, states[|states| - 1], d)
    decreases |states|
  {
    hide Accepted, Eval, Step;
    if |states| == 1 {
    } else {
      EvalNext(prog, states[0], states[1], d);
      EvalPath(prog, states[1..], d);
    }
  }

  lemma EvalReturn(prog: seq<Insn>, vm: Vm, d: Data)
    requires Accepted(prog) && vm.pc < |prog| && |d.args| == 6 && prog[vm.pc].code == 0x06
    ensures Eval(prog, vm, d) == prog[vm.pc].k
  {
    hide Accepted;
    assert prog[vm.pc].Src() == 0;
  }

  /** Jump on the call number, and return 1 when the jump is taken and 2 when not. */
  function JumpProgram(op: nat, k: u32): seq<Insn> {
    [Insn(0x20, 0, 0, 0), Insn(0x05 + op, 0, 1, k), Insn(0x06, 0, 0, 1), Insn(0x06, 0, 0, 2)]
  }

  lemma JumpFault(op: nat, k: u32)
    requires op in {0x10, 0x20, 0x30, 0x40}
    ensures Fault(Insn(0x05 + op, 0, 1, k), 1, 4).None? && Fault(Insn(0x20, 0, 0, 0), 0, 4).None?
  {
  }

  lemma JumpAccepted(op: nat, k: u32)
    requires op in {0x10, 0x20, 0x30, 0x40}
    ensures Accepted(JumpProgram(op, k))
  {
    hide Fault;
    JumpFault(op, k);
    ReturnFault(1, 2, 4);
    ReturnFault(2, 3, 4);
  }

  /** Every jump goes by its comparison of the call number with the constant, on every call. */
  lemma JumpVerdict(op: nat, k: u32, d: Data)
    requires op in {0x10, 0x20, 0x30, 0x40} && |d.args| == 6
    ensures Accepted(JumpProgram(op, k))
    ensures Eval(JumpProgram(op, k), START, d) == if Compares(op, d.nr, k) then 1 else 2
  {
    hide Accepted, Compares, Eval, Step;
    JumpAccepted(op, k);
    var prog, loaded := JumpProgram(op, k), START.(a := d.nr, pc := 1);
    LoadsNumber(d);
    EvalNext(prog, START, loaded, d);
    JumpStep(prog[1], loaded, d);
    var next := loaded.(pc := if Compares(op, d.nr, k) then 2 else 3);
    EvalNext(prog, loaded, next, d);
    EvalReturn(prog, next, d);
  }

  lemma LoadsNumber(d: Data)
    requires |d.args| == 6
    ensures Step(Insn(0x20, 0, 0, 0), START, d) == Next(START.(a := d.nr, pc := 1))
  {
  }

  /** Apply an operation to two constants, and return 1 when the result is `r` and 2 when not. */
  function ArithProgram(op: nat, a: u32, s: u32, r: u32): seq<Insn> {
    [Insn(0x00, 0, 0, a), Insn(0x04 + op, 0, 0, s), Insn(0x15, 0, 1, r), Insn(0x06, 0, 0, 1), Insn(0x06, 0, 0, 2)]
  }

  lemma ArithFault(op: nat, s: u32, pc: nat, len: nat)
    requires op < 256 && op % 16 == 0
    ensures Fault(Insn(0x04 + op, 0, 0, s), pc, len).None? <==> !((op == 0x30 || op == 0x90) && s == 0)
    ensures Insn(0x04 + op, 0, 0, s).Class() == 4
  {
    var insn := Insn(0x04 + op, 0, 0, s);
    assert insn.Class() == 4 && insn.Op() == op && insn.Src() == 0;
  }

  lemma PlainFaults(k: u32, pc: nat, len: nat)
    requires pc + 2 < len
    ensures Fault(Insn(0x00, 0, 0, k), pc, len).None? && Fault(Insn(0x15, 0, 1, k), pc, len).None?
  {
  }

  /** The validator refuses exactly division by the constant zero. */
  lemma ArithAccepted(op: nat, a: u32, s: u32, r: u32)
    requires op < 256 && op % 16 == 0
    ensures Accepted(ArithProgram(op, a, s, r)) <==> !((op == 0x30 || op == 0x90) && s == 0)
  {
    hide Fault;
    var prog := ArithProgram(op, a, s, r);
    ArithFault(op, s, 1, 5);
    PlainFaults(a, 0, 5);
    PlainFaults(r, 2, 5);
    ReturnFault(1, 3, 5);
    ReturnFault(2, 4, 5);
    assert Fault(prog[1], 1, |prog|).None? <==> !((op == 0x30 || op == 0x90) && s == 0);
    assert forall pc: nat :: pc < 5 && pc != 1 ==> Fault(prog[pc], pc, |prog|).None?;
  }

  lemma ReturnFault(k: u32, pc: nat, len: nat)
    ensures Fault(Insn(0x06, 0, 0, k), pc, len).None?
  {
  }

  /** The accumulator when the program comes to its jump. */
  lemma ArithReaches(op: nat, a: u32, s: u32, r: u32, d: Data) returns (vm: Vm)
    requires op < 256 && op % 16 == 0 && |d.args| == 6 && Accepted(ArithProgram(op, a, s, r))
    requires !((op == 0x30 || op == 0x90) && s == 0)
    ensures vm.pc == 2 && Result(op, a, s, vm.a)
    ensures Eval(ArithProgram(op, a, s, r), START, d) == Eval(ArithProgram(op, a, s, r), vm, d)
  {
    hide Accepted, Result, Eval, Step;
    var prog, loaded := ArithProgram(op, a, s, r), START.(a := a, pc := 1);
    MoveSteps(START, a, d);
    EvalNext(prog, START, loaded, d);
    ArithStep(prog[1], loaded, d);
    vm := Step(prog[1], loaded, d).vm;
    EvalNext(prog, loaded, vm, d);
  }

  /** Every operation on every two numbers leaves its result. */
  lemma ArithVerdict(op: nat, a: u32, s: u32, r: u32, d: Data)
    requires op < 256 && op % 16 == 0 && |d.args| == 6 && !((op == 0x30 || op == 0x90) && s == 0)
    ensures Accepted(ArithProgram(op, a, s, r))
    ensures Eval(ArithProgram(op, a, s, r), START, d) == if Result(op, a, s, r) then 1 else 2
  {
    hide Accepted, Result, Eval, Step;
    ArithAccepted(op, a, s, r);
    var prog := ArithProgram(op, a, s, r);
    var vm := ArithReaches(op, a, s, r, d);
    JumpStep(prog[2], vm, d);
    var next := vm.(pc := if vm.a == r then 3 else 4);
    EvalNext(prog, vm, next, d);
    EvalReturn(prog, next, d);
    if Result(op, a, s, r) { OneResult(op, a, s, r, vm.a); }
  }

  // ---- Loads ----

  /** A load takes the word at its offset, or at its offset from the index register, and zero where there is none. */
  lemma LoadSteps(vm: Vm, k: u32, offset: u32, d: Data)
    requires |d.args| == 6 && (offset == vm.x + k || offset + M32 == vm.x + k)
    ensures Step(Insn(0x20, 0, 0, k), vm, d) ==
      Next(vm.(a := if LoadU32(d, k).Some? then LoadU32(d, k).value else 0, pc := vm.pc + 1))
    ensures Step(Insn(0x40, 0, 0, k), vm, d) ==
      Next(vm.(a := if LoadU32(d, offset).Some? then LoadU32(d, offset).value else 0, pc := vm.pc + 1))
  {
    hide LoadU32;
  }

  /** The call number is at offset 0 and the architecture at 4. */
  lemma FirstWords(d: Data)
    requires |d.args| == 6
    ensures LoadU32(d, 0) == Some(d.nr) && LoadU32(d, 4) == Some(d.arch)
  {
  }

  /** From offset 16 + 8 i + j: the bits of argument `i` from byte `j` on, as many as there are. */
  lemma ArgumentBits(d: Data, i: nat, j: nat, k: nat)
    requires |d.args| == 6 && i < 6 && j < 8
    ensures var word := LoadU32(d, 16 + 8 * i + j);
      word.Some? && (Bit(word.value, k) <==> k < 32 && Bit(d.args[i], k + 8 * j))
  {
    hide Bit, Pow2;
    var arg, shift := d.args[i], 8 * j;
    assert (8 * i + j) / 8 == i && (8 * i + j) % 8 == j;
    Pow2Of32();
    QuotientNat(arg, Pow2(shift));
    var q: nat := arg / Pow2(shift);
    RemainderBits(q, 32, k);
    QuotientBits(arg, shift, q, k);
  }

  /** The high half of the instruction pointer is at 12, as far as it fits a word. */
  lemma PointerHigh(d: Data, k: nat)
    requires |d.args| == 6
    ensures var word := LoadU32(d, 12); word.Some? && (Bit(word.value, k) <==> k < 32 && Bit(d.ip, k + 32))
  {
    hide Bit;
    Pow2Of32();
    QuotientNat(d.ip, Pow2(32));
    var q: nat := d.ip / Pow2(32);
    RemainderBits(q, 32, k);
    QuotientBits(d.ip, 32, q, k);
  }

  /** But at 8 there is only the lowest byte of its low half: the whole of it exactly when it is below 256. */
  lemma PointerLow(d: Data)
    requires |d.args| == 6
    ensures LoadU32(d, 8) == Some(d.ip % M32) <==> d.ip % M32 < 256
  {
    assert LoadU32(d, 8) == Some(d.ip / Pow2(0) % 256);
    assert d.ip % 256 == d.ip % M32 % 256;
  }

  /** A call from address 0x1000: a filter that loads the low half of the pointer sees zero. */
  lemma PointerMissed(d: Data)
    requires |d.args| == 6 && d.ip == 0x1000
    ensures LoadU32(d, 8) == Some(0)
  {
    assert Pow2(0) == 1;
  }

  /** Loads at other offsets give nothing, which counts as zero. */
  lemma NoWord(d: Data, offset: u32)
    requires |d.args| == 6
    ensures LoadU32(d, offset).None? <==> offset in {1, 2, 3, 5, 6, 7, 13, 14, 15} || offset >= 64
  {
  }

  // ---- Scratch words and registers ----

  /** Put `v` into scratch word `k` and the accumulator out of the way, and look at the word again. */
  function ScratchProgram(v: u32, k: u32): seq<Insn> {
    [Insn(0x00, 0, 0, v), Insn(0x02, 0, 0, k), Insn(0x00, 0, 0, 0), Insn(0x60, 0, 0, k), Insn(0x15, 0, 1, v),
     Insn(0x06, 0, 0, 1), Insn(0x06, 0, 0, 2)]
  }

  /** There are sixteen scratch words. */
  lemma ScratchAccepted(v: u32, k: u32)
    ensures Accepted(ScratchProgram(v, k)) <==> k < 16
  {
    var prog := ScratchProgram(v, k);
    assert Fault(prog[1], 1, 7).None? <==> k < 16;
    assert k < 16 ==> forall pc :: 0 <= pc < 7 ==> Fault(prog[pc], pc, 7).None?;
  }

  /** The states of the program before its jump; the scratch words are `empty` and then `filled`. */
  function ScratchStates(v: u32, empty: seq<u32>, filled: seq<u32>): seq<Vm> {
    [Vm(0, 0, empty, 0), Vm(v, 0, empty, 1), Vm(v, 0, filled, 2), Vm(0, 0, filled, 3), Vm(v, 0, filled, 4)]
  }

  lemma ScratchPath(v: u32, k: u32, empty: seq<u32>, d: Data)
    requires k < 16 == |empty| && |d.args| == 6
    ensures Path(ScratchProgram(v, k), ScratchStates(v, empty, empty[k := v]), d)
  {
    hide Step;
    var states := ScratchStates(v, empty, empty[k := v]);
    MoveSteps(states[0], v, d);
    MoveSteps(states[1], k, d);
    MoveSteps(states[2], 0, d);
    MoveSteps(states[3], k, d);
  }

  /** A scratch word holds what was put there. */
  lemma ScratchVerdict(v: u32, k: u32, d: Data)
    requires k < 16 && |d.args| == 6
    ensures Accepted(ScratchProgram(v, k)) && Eval(ScratchProgram(v, k), START, d) == 1
  {
    hide Accepted, Eval, Step, Path;
    ScratchAccepted(v, k);
    var prog, empty := ScratchProgram(v, k), START.mem;
    ScratchPath(v, k, empty, d);
    EvalPath(prog, ScratchStates(v, empty, empty[k := v]), d);
    FoundVerdict(prog, ScratchStates(v, empty, empty[k := v])[4], d);
  }

  /** From the jump on: the accumulator is the jump's constant, and the instruction behind it returns 1. */
  lemma FoundVerdict(prog: seq<Insn>, vm: Vm, d: Data)
    requires Accepted(prog) && |d.args| == 6 && vm.pc + 1 < |prog|
    requires prog[vm.pc] == Insn(0x15, 0, 1, vm.a) && prog[vm.pc + 1] == Insn(0x06, 0, 0, 1)
    ensures Eval(prog, vm, d) == 1
  {
    hide Accepted, Eval, Step;
    JumpStep(prog[vm.pc], vm, d);
    EvalNext(prog, vm, vm.(pc := vm.pc + 1), d);
    EvalReturn(prog, vm.(pc := vm.pc + 1), d);
  }

  /** The same through the index register: into it, to the scratch word, back, and into the accumulator. */
  function IndexProgram(v: u32, k: u32): seq<Insn> {
    [Insn(0x00, 0, 0, v), Insn(0x07, 0, 0, 0), Insn(0x03, 0, 0, k), Insn(0x01, 0, 0, 0), Insn(0x61, 0, 0, k),
     Insn(0x00, 0, 0, 0), Insn(0x87, 0, 0, 0), Insn(0x15, 0, 1, v), Insn(0x06, 0, 0, 1), Insn(0x06, 0, 0, 2)]
  }

  lemma IndexAccepted(v: u32, k: u32)
    ensures Accepted(IndexProgram(v, k)) <==> k < 16
  {
    var prog := IndexProgram(v, k);
    assert Fault(prog[2], 2, 10).None? <==> k < 16;
    assert k < 16 ==> forall pc :: 0 <= pc < 10 ==> Fault(prog[pc], pc, 10).None?;
  }

  /** The states the program goes through before its jump; the scratch words are `empty` and then `filled`. */
  function IndexStates(v: u32, empty: seq<u32>, filled: seq<u32>): seq<Vm> {
    [Vm(0, 0, empty, 0), Vm(v, 0, empty, 1), Vm(v, v, empty, 2), Vm(v, v, filled, 3), Vm(v, 0, filled, 4),
     Vm(v, v, filled, 5), Vm(0, v, filled, 6), Vm(v, v, filled, 7)]
  }

  lemma IndexPath(v: u32, k: u32, empty: seq<u32>, d: Data)
    requires k < 16 == |empty| && |d.args| == 6
    ensures Path(IndexProgram(v, k), IndexStates(v, empty, empty[k := v]), d)
  {
    hide Step;
    var states := IndexStates(v, empty, empty[k := v]);
    MoveSteps(states[0], v, d);
    MoveSteps(states[1], 0, d);
    MoveSteps(states[2], k, d);
    MoveSteps(states[3], 0, d);
    MoveSteps(states[4], k, d);
    MoveSteps(states[5], 0, d);
    MoveSteps(states[6], 0, d);
  }

  lemma IndexVerdict(v: u32, k: u32, d: Data)
    requires k < 16 && |d.args| == 6
    ensures Accepted(IndexProgram(v, k)) && Eval(IndexProgram(v, k), START, d) == 1
  {
    hide Accepted, Eval, Step, Path;
    IndexAccepted(v, k);
    var prog, empty := IndexProgram(v, k), START.mem;
    IndexPath(v, k, empty, d);
    EvalPath(prog, IndexStates(v, empty, empty[k := v]), d);
    FoundVerdict(prog, IndexStates(v, empty, empty[k := v])[7], d);
  }

  // ---- What the validator lets through ----

  function Returns(n: nat): seq<Insn> {
    seq(n, _ => Insn(0x06, 0, 0, 0))
  }

  /** Programs of returns pass up to 4096 instructions, behind one other instruction exactly when that passes. */
  lemma AcceptedBehind(insn: Insn, n: nat)
    ensures Accepted([insn] + Returns(n)) <==>
      n < 4096 && Fault(insn, 0, n + 1).None? && (n == 0 ==> insn.Class() == 6)
  {
    hide Fault;
    var prog := [insn] + Returns(n);
    forall pc: nat | 0 < pc < |prog| ensures prog[pc] == Insn(0x06, 0, 0, 0) && Fault(prog[pc], pc, |prog|).None? {
      ReturnFault(0, pc, |prog|);
    }
    assert prog[0] == insn;
  }

  /** Jumps are let through exactly when they stay inside, loads when they lie in the data, divisors when not zero. */
  lemma AcceptedExactly(k: u32, jt: byte, jf: byte, n: nat)
    requires 0 < n < 4096
    ensures Accepted([Insn(0x05, jt, jf, k)] + Returns(n)) <==> k < n
    ensures Accepted([Insn(0x15, jt, jf, k)] + Returns(n)) <==> jt < n && jf < n
    ensures Accepted([Insn(0x20, jt, jf, k)] + Returns(n)) <==> k + 4 <= 64 || k + 4 >= M32
    ensures Accepted([Insn(0x34, jt, jf, k)] + Returns(n)) <==> k != 0
    ensures Accepted([Insn(0x02, jt, jf, k)] + Returns(n)) <==> k < 16
    ensures Accepted([Insn(0x60, jt, jf, k)] + Returns(n)) <==> k < 16
  {
    hide Accepted;
    AcceptedBehind(Insn(0x05, jt, jf, k), n);
    AcceptedBehind(Insn(0x15, jt, jf, k), n);
    AcceptedBehind(Insn(0x20, jt, jf, k), n);
    AcceptedBehind(Insn(0x34, jt, jf, k), n);
    AcceptedBehind(Insn(0x02, jt, jf, k), n);
    AcceptedBehind(Insn(0x60, jt, jf, k), n);
  }
}
