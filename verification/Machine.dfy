/** The register state, and what the intermediate language means on it. Values are numbers and the
    operations are arithmetic modulo the register width; the Arm semantics, in module ArmReference,
    are written on bit strings instead. */
module Machine {
  import opened Bits
  import opened Iml

  type Bits64 = x: Bits | |x| == 64 witness Zeros(64)

  /** The condition flags: negative, zero, carry and overflow. */
  datatype Flags = Flags(n: bool, z: bool, c: bool, v: bool)

  /** X0 to X30, SP and the condition flags. */
  datatype State = State(x: seq<Bits64>, sp: Bits64, flags: Flags)

  predicate StateOk(s: State) {
    |s.x| == 31
  }

  /** `a & b`, `a | b` and `a ^ b` of two numbers, binary digit by binary digit. */
  function NatBitwise(op: BitOp, a: nat, b: nat): nat
    decreases a + b
  {
    if a == 0 && b == 0 then 0
    else BitVal(Apply(op, a % 2 == 1, b % 2 == 1)) + 2 * NatBitwise(op, a / 2, b / 2)
  }

  /** Whether the sign bit of a w-bit number is set. */
  predicate IsNegative(a: nat, w: nat) {
    w > 0 && a >= Pow2(w - 1)
  }

  /** Bitwise complement of a w-bit number. */
  function EvalNeg(a: nat, w: nat): nat {
    if a < Pow2(w) then Pow2(w) - 1 - a else 0
  }

  /** A result cut to w bits. */
  function Wrap(a: int, w: nat): nat {
    a % Pow2(w)
  }

  /** Twice a w-bit number, without the bit that leaves at the top. */
  function Double(a: nat, w: nat): nat {
    if 2 * a >= Pow2(w) then 2 * a - Pow2(w) else 2 * a
  }

  function EvalLsl(a: nat, b: nat, w: nat): nat
    decreases b
  {
    if b == 0 then a else EvalLsl(Double(a, w), b - 1, w)
  }

  function EvalLsr(a: nat, b: nat): nat
    decreases b
  {
    if b == 0 then a else EvalLsr(a / 2, b - 1)
  }

  /** An arithmetic shift: a number with its sign bit set is complemented before and after, so that
      what moves in at the top is ones. */
  function EvalAsr(a: nat, b: nat, w: nat): nat {
    if IsNegative(a, w) then EvalNeg(EvalLsr(EvalNeg(a, w), b), w) else EvalLsr(a, b)
  }

  /** A rotation by an amount up to the width: what leaves at the bottom comes in at the top. */
  function EvalRor(a: nat, b: nat, w: nat): nat {
    if b > w then 0 else NatBitwise(Or, EvalLsr(a, b), EvalLsl(a, w - b, w))
  }

  /** The operations the decoders emit; the others are given the value 0. */
  function EvalOp(op: MathOp, a: nat, b: nat, w: nat): nat {
    match op
    case ADD => Wrap(a + b, w)
    case SUB => Wrap(a - b, w)
    case LSL => EvalLsl(a, b, w)
    case LSR => EvalLsr(a, b)
    case ASR => EvalAsr(a, b, w)
    case ROR => EvalRor(a, b, w)
    case AND => NatBitwise(And, a, b)
    case OR => NatBitwise(Or, a, b)
    case XOR => NatBitwise(Xor, a, b)
    case _ => 0
  }

  /** Registers above 31 do not exist; 31 is the stack pointer, since a zero register has become a
      constant. A register is read at the width of the instruction. */
  function EvalOperand(o: Operand, s: State, w: nat): nat
    requires StateOk(s)
  {
    match o
    case Immediate(imm) => imm % Pow2(w)
    case Register(reg) =>
      if reg < 31 then Val(s.x[reg]) % Pow2(w) else if reg == 31 then Val(s.sp) % Pow2(w) else 0
  }

  function EvalTree(t: Tree, s: State, w: nat): nat
    requires StateOk(s)
  {
    match t
    case Leaf(o) => EvalOperand(o, s, w)
    case Neg(a) => EvalNeg(EvalTree(a, s, w), w)
    case Node(op, a, b) => EvalOp(op, EvalTree(a, s, w), EvalTree(b, s, w), w)
  }

  function Width(is64: bool): nat {
    if is64 then 64 else 32
  }

  // ---- execution ----

  /** N and Z follow a value, C and V are cleared. */
  function ValueFlags(value: nat, w: nat): Flags {
    Flags(IsNegative(value, w), value == 0, false, false)
  }

  /** ADD sets C when it carries out of the top and SUB when it does not borrow, as on Arm; both set V
      when the signed result does not fit. */
  function OpFlags(op: MathOp, a: nat, b: nat, w: nat): Flags {
    var value := EvalOp(op, a, b, w);
    var f := ValueFlags(value, w);
    var p, q := IsNegative(a, w), IsNegative(b, w);
    match op
    case ADD => f.(c := a + b >= Pow2(w), v := p == q && f.n != p)
    case SUB => f.(c := a >= b, v := p != q && f.n != p)
    case _ => f
  }

  /** The flags of an expression are those of its outermost operation. */
  function TreeFlags(t: Tree, s: State, w: nat): Flags
    requires StateOk(s)
  {
    match t
    case Node(op, a, b) => OpFlags(op, EvalTree(a, s, w), EvalTree(b, s, w), w)
    case _ => ValueFlags(EvalTree(t, s, w), w)
  }

  /** Register 31 as a destination is the zero register: the result is dropped. */
  function WriteDest(s: State, dest: nat, value: nat): State
    requires StateOk(s)
  {
    if dest < 31 then s.(x := s.x[dest := FromNat(value, 64)]) else s
  }

  /** What an instruction does with the value and the flags of its expression: the value goes to the
      destination, zero-extended, and the flags are set if the instruction sets flags. */
  function ExecValue(i: Instruction, value: nat, flags: Flags, s: State): (r: State)
    requires StateOk(s) && i.body.Math?
    ensures StateOk(r)
  {
    var s' := WriteDest(s, i.body.dest, value);
    if i.body.setFlags then s'.(flags := flags) else s'
  }

  function ExecMath(i: Instruction, t: Tree, s: State): (r: State)
    requires StateOk(s) && i.body.Math?
    ensures StateOk(r)
  {
    ExecValue(i, EvalTree(t, s, Width(i.is64)), TreeFlags(t, s, Width(i.is64)), s)
  }
}
