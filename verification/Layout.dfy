/** The bytes of the records in the pool, as a 64-bit little-endian C++ compiler lays them out:
    24 bytes for an expression, 48 for an instruction. Padding is zero. */
module Layout {
  import opened Pools
  import opened Iml

  const SIZEOF_EXPRESSION: nat := 24
  const SIZEOF_INSTRUCTION: nat := 48
  const OFFSETOF_NEXT: nat := 44

  // ---- little-endian integers ----

  function Pow256(k: nat): nat {
    if k == 0 then 1 else 256 * Pow256(k - 1)
  }

  function LE(n: nat, k: nat): (r: seq<byte>)
    ensures |r| == k
  {
    if k == 0 then [] else [n % 256] + LE(n / 256, k - 1)
  }

  function FromLE(b: seq<byte>): nat {
    if b == [] then 0 else b[0] + 256 * FromLE(b[1..])
  }

  lemma {:induction false} LERoundTrip(n: nat, k: nat)
    requires n < Pow256(k)
    ensures FromLE(LE(n, k)) == n
  {
    if k == 0 {
    } else {
      LERoundTrip(n / 256, k - 1);
      assert LE(n, k)[1..] == LE(n / 256, k - 1);
    }
  }

  // ---- records ----

  function OpCode(op: MathOp): byte {
    match op
    case ADD => 0 case SUB => 1 case MUL => 2 case DIV => 3
    case LSL => 4 case LSR => 5
    case ASL => 6 case ASR => 7
    case ROL => 8 case ROR => 9
    case AND => 10 case OR => 11 case XOR => 12 case NEG => 13
    case BITFIELD_MOV => 14 case BITFIELD_MOV_SIGNED => 15 case BITFIELD_MOV_UNSIGNED => 16
  }

  function OpOf(b: byte): MathOp {
    match b
    case 0 => ADD case 1 => SUB case 2 => MUL case 3 => DIV
    case 4 => LSL case 5 => LSR
    case 6 => ASL case 7 => ASR
    case 8 => ROL case 9 => ROR
    case 10 => AND case 11 => OR case 12 => XOR case 13 => NEG
    case 14 => BITFIELD_MOV case 15 => BITFIELD_MOV_SIGNED case _ => BITFIELD_MOV_UNSIGNED
  }

  function HintCode(h: BranchHint): byte {
    match h
    case CALL => 0 case EXCEPTION_RETURN => 1 case DEBUG_EXIT => 2
    case RETURN => 3 case JUMP => 4 case EXCEPTION => 5 case UNKNOWN => 6
  }

  function HintOf(b: byte): BranchHint {
    match b
    case 0 => CALL case 1 => EXCEPTION_RETURN case 2 => DEBUG_EXIT
    case 3 => RETURN case 4 => JUMP case 5 => EXCEPTION case _ => UNKNOWN
  }

  function BoolByte(b: bool): byte {
    if b then 1 else 0
  }

  predicate OperandOk(o: Operand) {
    match o
    case Immediate(imm) => imm < Pow256(8)
    case Register(reg) => reg < 256
  }

  function SerOperand(o: Operand): (r: seq<byte>)
    requires OperandOk(o)
    ensures |r| == 16
  {
    match o
    case Immediate(imm) => [0] + ZeroBytes(7) + LE(imm, 8)
    case Register(reg) => [1] + ZeroBytes(7) + [reg] + ZeroBytes(7)
  }

  function ParseOperand(b: seq<byte>): Operand
    requires |b| == 16
  {
    if b[0] == 0 then Immediate(FromLE(b[8..])) else Register(b[8])
  }

  predicate ExpressionOk(e: Expression) {
    match e
    case Value(o) => OperandOk(o)
    case Compound(_, _, _, left, right) => left < Pow256(4) && right < Pow256(4)
  }

  function SerExpression(e: Expression): (r: seq<byte>)
    requires ExpressionOk(e)
    ensures |r| == SIZEOF_EXPRESSION
  {
    match e
    case Value(o) => [1] + ZeroBytes(7) + SerOperand(o)
    case Compound(op, signedOp, carry, left, right) =>
      [0] + ZeroBytes(7) + [OpCode(op), BoolByte(signedOp), BoolByte(carry), 0]
      + LE(left, 4) + LE(right, 4) + ZeroBytes(4)
  }

  function ParseExpression(b: seq<byte>): Expression
    requires |b| == SIZEOF_EXPRESSION
  {
    if b[0] != 0 then Value(ParseOperand(b[8..]))
    else Compound(OpOf(b[8]), b[9] != 0, b[10] != 0, FromLE(b[12..16]), FromLE(b[16..20]))
  }

  predicate BodyOk(b: Body) {
    match b
    case Math(dest, _, expr) => dest < 256 && ExpressionOk(expr)
    case Branch(_, _, target, _) => OperandOk(target)
  }

  function SerBody(b: Body): (r: seq<byte>)
    requires BodyOk(b)
    ensures |r| == 32
  {
    match b
    case Math(dest, setFlags, expr) => [dest, BoolByte(setFlags)] + ZeroBytes(6) + SerExpression(expr)
    case Branch(conditional, link, target, hint) =>
      [BoolByte(conditional), BoolByte(link)] + ZeroBytes(6) + SerOperand(target) + [HintCode(hint)] + ZeroBytes(7)
  }

  function ParseBody(variant: nat, b: seq<byte>): Body
    requires |b| == 32
  {
    if variant == 0 then Math(b[0], b[1] != 0, ParseExpression(b[8..]))
    else Branch(b[0] != 0, b[1] != 0, ParseOperand(b[8..24]), HintOf(b[24]))
  }

  predicate InstructionOk(i: Instruction) {
    BodyOk(i.body) && i.next < Pow256(4)
  }

  function VariantCode(b: Body): byte {
    if b.Math? then 0 else 2
  }

  function FlagByte(i: Instruction): byte {
    BoolByte(i.is64) + 2 * BoolByte(i.n) + 4 * BoolByte(i.z) + 8 * BoolByte(i.c) + 16 * BoolByte(i.v)
  }

  /** All of an instruction record but its `next`, which is the last field. */
  function SerHead(i: Instruction): (r: seq<byte>)
    requires BodyOk(i.body)
    ensures |r| == OFFSETOF_NEXT
  {
    [VariantCode(i.body)] + ZeroBytes(7) + SerBody(i.body) + [FlagByte(i)] + ZeroBytes(3)
  }

  function SerInstruction(i: Instruction): (r: seq<byte>)
    requires InstructionOk(i)
    ensures |r| == SIZEOF_INSTRUCTION
  {
    SerHead(i) + LE(i.next, 4)
  }

  function ParseInstruction(b: seq<byte>): Instruction
    requires |b| == SIZEOF_INSTRUCTION
  {
    var f := b[40];
    Instruction(ParseBody(b[0], b[8..40]),
                f % 2 == 1, f / 2 % 2 == 1, f / 4 % 2 == 1, f / 8 % 2 == 1, f / 16 % 2 == 1,
                FromLE(b[OFFSETOF_NEXT..]))
  }

  // ---- round trips ----

  lemma OperandRoundTrip(o: Operand)
    requires OperandOk(o)
    ensures ParseOperand(SerOperand(o)) == o
  {
    if o.Immediate? {
      LERoundTrip(o.imm, 8);
      assert SerOperand(o)[8..] == LE(o.imm, 8);
    }
  }

  lemma OpRoundTrip(op: MathOp)
    ensures OpOf(OpCode(op)) == op
  {
  }

  lemma HintRoundTrip(h: BranchHint)
    ensures HintOf(HintCode(h)) == h
  {
  }

  lemma ExpressionRoundTrip(e: Expression)
    requires ExpressionOk(e)
    ensures ParseExpression(SerExpression(e)) == e
  {
    var b := SerExpression(e);
    match e
    case Value(o) =>
      OperandRoundTrip(o);
      assert b[8..] == SerOperand(o);
    case Compound(op, _, _, left, right) =>
      OpRoundTrip(op);
      LERoundTrip(left, 4);
      LERoundTrip(right, 4);
      assert b[12..16] == LE(left, 4);
      assert b[16..20] == LE(right, 4);
  }

  lemma BodyRoundTrip(b: Body)
    requires BodyOk(b)
    ensures ParseBody(VariantCode(b), SerBody(b)) == b
  {
    var s := SerBody(b);
    match b
    case Math(_, _, expr) =>
      ExpressionRoundTrip(expr);
      assert s[8..] == SerExpression(expr);
    case Branch(_, _, target, hint) =>
      OperandRoundTrip(target);
      HintRoundTrip(hint);
      assert s[8..24] == SerOperand(target);
  }

  lemma InstructionRoundTrip(i: Instruction)
    requires InstructionOk(i)
    ensures ParseInstruction(SerInstruction(i)) == i
  {
    var b := SerInstruction(i);
    BodyRoundTrip(i.body);
    LERoundTrip(i.next, 4);
    assert b[8..40] == SerBody(i.body);
    assert b[OFFSETOF_NEXT..] == LE(i.next, 4);
  }

  /** Writing the four bytes of `next` changes that field and nothing else. */
  lemma NextWriteBack(i: Instruction, next: nat)
    requires InstructionOk(i) && next < Pow256(4)
    ensures SerInstruction(i)[..OFFSETOF_NEXT] + LE(next, 4) == SerInstruction(i.(next := next))
  {
  }
}
