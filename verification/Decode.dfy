/** The instruction decoders: what each word is decoded to, and the methods that push the records. */
module Decode {
  import opened Bits
  import opened Iml
  import opened Layout
  import opened TreePool
  import opened ArmEncoding
  import ArmAsl

  // ---- tables and fields ----

  /** `shift_type_table`. */
  function ShiftType(i: bv32): MathOp {
    if i == 0 then LSL else if i == 1 then LSR else if i == 2 then ASR else ROR
  }

  /** `bitwise_op_table`. */
  function BitwiseOp(i: bv32): MathOp {
    if i == 0 then AND else if i == 1 then OR else if i == 2 then XOR else AND
  }

  function Field(instr: bv32, low: nat, high: nat): (r: nat)
    requires low <= high < 32
  {
    GetBitRegion(instr, low, high) as nat
  }

  predicate Flag(instr: bv32, bit: nat)
    requires bit < 32
  {
    GetSingleBit(instr, bit) == 1
  }

  function RegisterLeaf(reg: nat): Tree {
    Leaf(RegisterOperand(reg, false))
  }

  // ---- classes ----

  datatype Class = ADDSUB_IMM | LOGICAL_IMM | LOGICAL_SHIFT | ADDSUB_SHIFT | BRANCH_REG | BRANCH_IMM | UNIMPLEMENTED

  /** Where the nested switches of `decode` end up. */
  function Classify(instr: bv32): Class {
    match InstrGetGroup(instr)
    case L1_BRANCH => (
      match BranchGetGroup(instr)
      case BRANCH_UNCONDITIONAL_REG => BRANCH_REG
      case BRANCH_UNCONDITIONAL_IMM => BRANCH_IMM
      case _ => UNIMPLEMENTED)
    case L1_DATA_IMM => (
      match DataImmGetGroup(instr)
      case IMM_ADDSUB_IMM => ADDSUB_IMM
      case IMM_LOGICAL_IMM => LOGICAL_IMM
      case _ => UNIMPLEMENTED)
    case L1_DATA_REG => (
      match DataRegGetGroup(instr)
      case REG_LOGICAL_SHIFT => LOGICAL_SHIFT
      case REG_ADDSUB_SHIFT => ADDSUB_SHIFT
      case _ => UNIMPLEMENTED)
    case _ => UNIMPLEMENTED
  }

  predicate HasTree(instr: bv32) {
    Classify(instr) in {ADDSUB_IMM, LOGICAL_IMM, LOGICAL_SHIFT, ADDSUB_SHIFT}
  }

  function ImmsBits(instr: bv32): (r: Bits)
    ensures |r| == 6
  {
    FromNat(Field(instr, 10, 15), 6)
  }

  function ImmrBits(instr: bv32): (r: Bits)
    ensures |r| == 6
  {
    FromNat(Field(instr, 16, 21), 6)
  }

  /** The words on which every assertion of the decoders holds and the decoder returns. */
  predicate Accepts(instr: bv32) {
    && instr != 0
    && match Classify(instr)
       case LOGICAL_IMM =>
         && (!Flag(instr, 31) ==> !Flag(instr, 22))
         && ArmAsl.Accepts(Flag(instr, 22), ImmsBits(instr))
       case LOGICAL_SHIFT => !Flag(instr, 31) ==> GetSingleBit(GetBitRegion(instr, 10, 15), 5) == 0
       case ADDSUB_SHIFT => !Flag(instr, 31) ==> GetSingleBit(GetBitRegion(instr, 10, 15), 5) == 0
       case _ => true
  }

  // ---- what each class is decoded to ----

  /** The immediate of add/subtract: a left shift by 12 takes its place when the shift field is 01. */
  function ScaledImmediate(instr: bv32): Tree {
    var imm := Leaf(Immediate(Field(instr, 10, 21)));
    if GetBitRegion(instr, 22, 23) == 1 then Node(LSL, imm, Leaf(Immediate(12))) else imm
  }

  function AddSubImmTree(instr: bv32): Tree {
    Node(if Flag(instr, 30) then ADD else SUB, RegisterLeaf(Field(instr, 5, 9)), ScaledImmediate(instr))
  }

  /** The mask, cut to a u32. */
  function LogicalImmediate(instr: bv32): (r: nat)
    requires !ArmAsl.Reserved(Flag(instr, 22), ImmsBits(instr))
    ensures r < 0x1_0000_0000
  {
    CutToU32(ArmAsl.Mask(Flag(instr, 22), ImmsBits(instr), ImmrBits(instr)))
  }

  function CutToU32(x: Bits): (r: nat)
    ensures r < 0x1_0000_0000
  {
    var low := if |x| < 32 then x else x[..32];
    ValBound(low);
    Pow2Words();
    Pow2Monotone(|low|, 32);
    Val(low)
  }

  function LogicalImmTree(instr: bv32): Tree
    requires !ArmAsl.Reserved(Flag(instr, 22), ImmsBits(instr))
  {
    Node(BitwiseOp(GetBitRegion(instr, 29, 30)), RegisterLeaf(Field(instr, 5, 9)),
         Leaf(Immediate(LogicalImmediate(instr))))
  }

  /** The second operand of the shifted-register classes: Rm, or Rm shifted when the amount is not 0. */
  function ShiftedRegister(kind: bv32, rm: nat, amount: nat): Tree {
    if amount > 0 then Node(ShiftType(kind), RegisterLeaf(rm), Leaf(Immediate(amount))) else RegisterLeaf(rm)
  }

  function ShiftedTree(instr: bv32): Tree {
    ShiftedRegister(GetBitRegion(instr, 22, 23), Field(instr, 16, 20), Field(instr, 10, 15))
  }

  function SecondOperandTree(instr: bv32): Tree {
    if Flag(instr, 21) then Neg(ShiftedTree(instr)) else ShiftedTree(instr)
  }

  function LogicalShiftTree(instr: bv32): Tree {
    Node(BitwiseOp(GetBitRegion(instr, 29, 30)), RegisterLeaf(Field(instr, 5, 9)), SecondOperandTree(instr))
  }

  function AddSubShiftTree(instr: bv32): Tree {
    Node(if Flag(instr, 30) then ADD else SUB, RegisterLeaf(Field(instr, 5, 9)), ShiftedTree(instr))
  }

  /** The tree of a math instruction. */
  function TreeOf(instr: bv32): Tree
    requires Accepts(instr) && HasTree(instr)
  {
    match Classify(instr)
    case ADDSUB_IMM => AddSubImmTree(instr)
    case LOGICAL_IMM =>
      ArmAsl.AcceptsIffNotReserved(Flag(instr, 22), ImmsBits(instr));
      LogicalImmTree(instr)
    case LOGICAL_SHIFT => LogicalShiftTree(instr)
    case _ => AddSubShiftTree(instr)
  }

  predicate SetsFlags(instr: bv32) {
    if Classify(instr) == LOGICAL_IMM || Classify(instr) == LOGICAL_SHIFT
    then GetBitRegion(instr, 29, 30) == 3
    else Flag(instr, 29)
  }

  function MathInstruction(instr: bv32, setFlags: bool, touched: bool, expr: Expression): Instruction {
    Instruction(Math(Field(instr, 0, 4), setFlags, expr), Flag(instr, 31), touched, touched, touched, touched, 0)
  }

  function BranchInstruction(link: bool, target: Operand, hint: BranchHint): Instruction {
    Instruction(Branch(false, link, target, hint), false, false, false, false, false, 0)
  }

  function BranchToRegister(instr: bv32): Instruction {
    var opc := GetBitRegion(instr, 21, 24);
    if opc == 4 || opc == 5 then BranchInstruction(false, Register(0), CALL)
    else
      var target := Register(Field(instr, 5, 9));
      if opc == 0 then BranchInstruction(false, target, JUMP)
      else if opc == 1 then BranchInstruction(true, target, CALL)
      else if opc == 2 then BranchInstruction(false, target, RETURN)
      else BranchInstruction(false, target, CALL)
  }

  function BranchToImmediate(instr: bv32): Instruction {
    var link := Flag(instr, 31);
    BranchInstruction(link, Immediate(Field(instr, 0, 25)), if link then CALL else JUMP)
  }

  function TreelessInstruction(instr: bv32): Instruction {
    if Classify(instr) == BRANCH_REG then BranchToRegister(instr)
    else if Classify(instr) == BRANCH_IMM then BranchToImmediate(instr)
    else EMPTY
  }

  /** What a word is decoded to, wherever its records go. */
  function Describe(instr: bv32): Item
    requires Accepts(instr)
  {
    if HasTree(instr)
    then WithTree(TreeOf(instr),
                  MathInstruction(instr, SetsFlags(instr), SetsFlags(instr) && Classify(instr) != ADDSUB_IMM, BLANK))
    else Plain(TreelessInstruction(instr))
  }

  // ---- ranges ----

  lemma RdBound(instr: bv32)
    ensures Field(instr, 0, 4) < 32
  {
  }

  lemma RnBound(instr: bv32)
    ensures Field(instr, 5, 9) < 32
  {
  }

  lemma RmBound(instr: bv32)
    ensures Field(instr, 16, 20) < 32
  {
  }

  lemma AmountBound(instr: bv32)
    ensures Field(instr, 10, 15) < 64
  {
  }

  lemma Imm12Bound(instr: bv32)
    ensures Field(instr, 10, 21) < 0x1000
  {
  }

  lemma Imm26Bound(instr: bv32)
    ensures Field(instr, 0, 25) < 0x1_0000_0000
  {
  }

  lemma RegisterLeafFits(reg: nat)
    requires reg < 32
    ensures TreeFits(RegisterLeaf(reg))
  {
  }

  lemma SmallImmediateFits(imm: nat)
    requires imm < 0x1_0000_0000
    ensures TreeFits(Leaf(Immediate(imm)))
  {
    assert Pow256(8) == 0x1_0000_0000_0000_0000;
  }

  lemma ShiftedTreeInRange(instr: bv32)
    ensures TreeFits(ShiftedTree(instr)) && TreeOk(ShiftedTree(instr))
    ensures Count(ShiftedTree(instr)) <= 2 && Count(SecondOperandTree(instr)) <= 4
  {
    RmBound(instr);
    AmountBound(instr);
    RegisterLeafFits(Field(instr, 16, 20));
    SmallImmediateFits(Field(instr, 10, 15));
  }

  lemma AddSubImmTreeInRange(instr: bv32)
    ensures TreeFits(AddSubImmTree(instr)) && TreeOk(AddSubImmTree(instr)) && Count(AddSubImmTree(instr)) <= 4
  {
    RnBound(instr);
    Imm12Bound(instr);
    RegisterLeafFits(Field(instr, 5, 9));
    SmallImmediateFits(Field(instr, 10, 21));
    SmallImmediateFits(12);
    assert Count(ScaledImmediate(instr)) <= 2;
  }

  lemma LogicalImmTreeInRange(instr: bv32)
    requires !ArmAsl.Reserved(Flag(instr, 22), ImmsBits(instr))
    ensures TreeFits(LogicalImmTree(instr)) && TreeOk(LogicalImmTree(instr)) && Count(LogicalImmTree(instr)) == 2
  {
    hide LogicalImmediate;
    RnBound(instr);
    RegisterLeafFits(Field(instr, 5, 9));
    SmallImmediateFits(LogicalImmediate(instr));
  }

  /** Every tree of a decoded word has operands that fit their records, is well formed and needs at
      most six records. */
  lemma TreeInRange(instr: bv32)
    requires Accepts(instr) && HasTree(instr)
    ensures TreeFits(TreeOf(instr)) && TreeOk(TreeOf(instr)) && Count(TreeOf(instr)) <= 6
  {
    RnBound(instr);
    RegisterLeafFits(Field(instr, 5, 9));
    match Classify(instr)
    case ADDSUB_IMM => AddSubImmTreeInRange(instr);
    case LOGICAL_IMM =>
      ArmAsl.AcceptsIffNotReserved(Flag(instr, 22), ImmsBits(instr));
      LogicalImmTreeInRange(instr);
    case _ => ShiftedTreeInRange(instr);
  }

  lemma BranchesOk(instr: bv32)
    ensures InstructionOk(BranchToRegister(instr)) && InstructionOk(BranchToImmediate(instr))
  {
    RnBound(instr);
    Imm26Bound(instr);
    SmallImmediateFits(Field(instr, 0, 25));
  }

  /** What an accepted word is decoded to can be stored: its operands fit their records, its tree is
      well formed and needs at most six of them. */
  lemma DescribeOk(instr: bv32)
    requires Accepts(instr)
    ensures ItemOk(Describe(instr))
  {
    if HasTree(instr) {
      RdBound(instr);
      TreeInRange(instr);
    } else {
      BranchesOk(instr);
    }
  }
}
