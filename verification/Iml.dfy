/** The intermediate language: expressions whose children are pool handles, instructions, and the
    trees they stand for. */
module Iml {

  datatype MathOp =
    | ADD | SUB | MUL | DIV
    | LSL | LSR
    | ASL | ASR
    | ROL | ROR
    | AND | OR | XOR | NEG
    | BITFIELD_MOV | BITFIELD_MOV_SIGNED | BITFIELD_MOV_UNSIGNED

  datatype Operand = Immediate(imm: nat) | Register(reg: nat)

  /** `left` and `right` are pool handles. */
  datatype Expression =
    | Value(operand: Operand)
    | Compound(op: MathOp, signedOp: bool, carry: bool, left: nat, right: nat)

  datatype BranchHint = CALL | EXCEPTION_RETURN | DEBUG_EXIT | RETURN | JUMP | EXCEPTION | UNKNOWN

  datatype Body =
    | Math(dest: nat, setFlags: bool, expr: Expression)
    | Branch(conditional: bool, link: bool, target: Operand, hint: BranchHint)

  /** The five flags are is_64bit and the touched negative, zero, carry and overflow flags. */
  datatype Instruction = Instruction(body: Body, is64: bool, n: bool, z: bool, c: bool, v: bool, next: nat)

  /** An expression left blank: what `expression()` holds. */
  const BLANK: Expression := Compound(ADD, false, false, 0, 0)

  /** The result of the decoders that are not implemented. */
  const EMPTY: Instruction := Instruction(Math(0, false, BLANK), false, false, false, false, false, 0)

  const REGISTER_ZERO: nat := 31

  /** The value constructor: register 31 reads as the constant 0 unless the caller forces it. */
  function RegisterOperand(reg: nat, force: bool): Operand {
    if reg == REGISTER_ZERO && !force then Immediate(0) else Register(reg)
  }

  // ---- trees ----

  /** An expression with its children in place of their handles. */
  datatype Tree = Leaf(operand: Operand) | Neg(arg: Tree) | Node(op: MathOp, left: Tree, right: Tree)

  predicate TreeOk(t: Tree) {
    match t
    case Leaf(_) => true
    case Neg(a) => TreeOk(a)
    case Node(op, a, b) => op != NEG && TreeOk(a) && TreeOk(b)
  }

  /** Records pushed for a tree. */
  function Count(t: Tree): nat {
    match t
    case Leaf(_) => 0
    case Neg(a) => Count(a) + 2
    case Node(_, a, b) => Count(a) + Count(b) + 2
  }
}
