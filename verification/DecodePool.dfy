/** The decoders as the program runs them: each pushes its expression records into the pool and
    returns the instruction; `EmitItem`, applied to what `Describe` says of the word, gives both. */
module DecodePool {
  import opened Pools
  import opened Iml
  import opened Layout
  import opened TreePool
  import opened Records
  import opened ArmEncoding
  import opened Decode
  import ArmAsl

  // ---- the decoders ----

  /** The pool holds the records of a tree, and the program its root. */
  ghost predicate HoldingTree(pool: Pool, initial: nat, before: seq<byte>, t: Tree, e: Expression)
    reads pool, pool.data
  {
    var b := Build(t, [], |before|);
    Holding(pool, initial, before, b.nodes) && e == b.expr && ExpressionOk(e)
  }

  method ShiftedOperand(pool: Pool, instr: bv32, ghost initial: nat, ghost before: seq<byte>) returns (e: Expression)
    requires Holding(pool, initial, before, []) && HandleAt(|before|, 2) <= LIMIT
    modifies pool, pool.data
    ensures HoldingTree(pool, initial, before, ShiftedTree(instr), e)
    ensures pool.data == old(pool.data) || fresh(pool.data)
  {
    RmBound(instr);
    AmountBound(instr);
    RegisterLeafFits(Field(instr, 16, 20));
    SmallImmediateFits(Field(instr, 10, 15));
    e := Value(RegisterOperand(Field(instr, 16, 20), false));
    if Field(instr, 10, 15) > 0 {
      var amount := Value(Immediate(Field(instr, 10, 15)));
      e := NewCompound(pool, e, ShiftType(GetBitRegion(instr, 22, 23)), amount, initial, before, []);
    }
  }

  /** The negation of the second operand, where the word asks for it. */
  method NegatedOperand(pool: Pool, instr: bv32, ghost initial: nat, ghost before: seq<byte>) returns (e: Expression)
    requires Holding(pool, initial, before, []) && HandleAt(|before|, 4) <= LIMIT
    modifies pool, pool.data
    ensures HoldingTree(pool, initial, before, SecondOperandTree(instr), e)
    ensures pool.data == old(pool.data) || fresh(pool.data)
  {
    ShiftedTreeInRange(instr);
    e := ShiftedOperand(pool, instr, initial, before);
    if Flag(instr, 21) {
      e := NewCompound(pool, e, NEG, BLANK, initial, before, Build(ShiftedTree(instr), [], |before|).nodes);
    }
  }

  /** The last step of every math decoder: the compound of a source register and its second operand. */
  method RootExpression(pool: Pool, rn: nat, op: MathOp, right: Expression,
                        ghost initial: nat, ghost before: seq<byte>, ghost t: Tree) returns (e: Expression)
    requires HoldingTree(pool, initial, before, t, right) && Count(t) <= 4
    requires rn < 32 && HandleAt(|before|, 6) <= LIMIT
    modifies pool, pool.data
    ensures HoldingTree(pool, initial, before, Node(op, RegisterLeaf(rn), t), e)
    ensures pool.data == old(pool.data) || fresh(pool.data)
  {
    RegisterLeafFits(rn);
    var left := Value(RegisterOperand(rn, false));
    e := NewCompound(pool, left, op, right, initial, before, Build(t, [], |before|).nodes);
  }

  method DecodeDataRegLogicalShift(pool: Pool, instr: bv32, ghost initial: nat, ghost before: seq<byte>)
    returns (i: Instruction)
    requires Holding(pool, initial, before, []) && HandleAt(|before|, 6) <= LIMIT
    modifies pool, pool.data
    ensures i.body.Math? && InstructionOk(i) && HoldingTree(pool, initial, before, LogicalShiftTree(instr), i.body.expr)
    ensures i == MathInstruction(instr, GetBitRegion(instr, 29, 30) == 3, GetBitRegion(instr, 29, 30) == 3, i.body.expr)
    ensures pool.data == old(pool.data) || fresh(pool.data)
  {
    hide ShiftedTree, SerAll, SecondOperandTree;
    RdBound(instr);
    RnBound(instr);
    ShiftedTreeInRange(instr);
    var setFlags := GetBitRegion(instr, 29, 30) == 3;
    var rm := NegatedOperand(pool, instr, initial, before);
    var e := RootExpression(pool, Field(instr, 5, 9), BitwiseOp(GetBitRegion(instr, 29, 30)), rm,
                            initial, before, SecondOperandTree(instr));
    i := MathInstruction(instr, setFlags, setFlags, e);
  }

  method DecodeDataRegAddSubShift(pool: Pool, instr: bv32, ghost initial: nat, ghost before: seq<byte>)
    returns (i: Instruction)
    requires Holding(pool, initial, before, []) && HandleAt(|before|, 6) <= LIMIT
    modifies pool, pool.data
    ensures i.body.Math? && InstructionOk(i) && HoldingTree(pool, initial, before, AddSubShiftTree(instr), i.body.expr)
    ensures i == MathInstruction(instr, Flag(instr, 29), Flag(instr, 29), i.body.expr)
    ensures pool.data == old(pool.data) || fresh(pool.data)
  {
    hide ShiftedTree, SerAll;
    RdBound(instr);
    RnBound(instr);
    ShiftedTreeInRange(instr);
    var setFlags := Flag(instr, 29);
    var rm := ShiftedOperand(pool, instr, initial, before);
    var e := RootExpression(pool, Field(instr, 5, 9), if Flag(instr, 30) then ADD else SUB, rm,
                            initial, before, ShiftedTree(instr));
    i := MathInstruction(instr, setFlags, setFlags, e);
  }

  method ScaledOperand(pool: Pool, instr: bv32, ghost initial: nat, ghost before: seq<byte>) returns (e: Expression)
    requires Holding(pool, initial, before, []) && HandleAt(|before|, 2) <= LIMIT
    modifies pool, pool.data
    ensures HoldingTree(pool, initial, before, ScaledImmediate(instr), e)
    ensures Count(ScaledImmediate(instr)) <= 2
    ensures pool.data == old(pool.data) || fresh(pool.data)
  {
    Imm12Bound(instr);
    SmallImmediateFits(Field(instr, 10, 21));
    SmallImmediateFits(12);
    e := Value(Immediate(Field(instr, 10, 21)));
    if GetBitRegion(instr, 22, 23) == 1 {
      e := NewCompound(pool, e, LSL, Value(Immediate(12)), initial, before, []);
    }
  }

  method DecodeAddSubImm(pool: Pool, instr: bv32, ghost initial: nat, ghost before: seq<byte>) returns (i: Instruction)
    requires Holding(pool, initial, before, []) && HandleAt(|before|, 6) <= LIMIT
    modifies pool, pool.data
    ensures i.body.Math? && InstructionOk(i) && HoldingTree(pool, initial, before, AddSubImmTree(instr), i.body.expr)
    ensures i == MathInstruction(instr, Flag(instr, 29), false, i.body.expr)
    ensures pool.data == old(pool.data) || fresh(pool.data)
  {
    RdBound(instr);
    RnBound(instr);
    var imm := ScaledOperand(pool, instr, initial, before);
    var e := RootExpression(pool, Field(instr, 5, 9), if Flag(instr, 30) then ADD else SUB, imm,
                            initial, before, ScaledImmediate(instr));
    i := MathInstruction(instr, Flag(instr, 29), false, e);
  }

  method DecodeLogicalImm(pool: Pool, instr: bv32, ghost initial: nat, ghost before: seq<byte>) returns (i: Instruction)
    requires ArmAsl.Accepts(Flag(instr, 22), ImmsBits(instr))
    requires Holding(pool, initial, before, []) && HandleAt(|before|, 6) <= LIMIT
    modifies pool, pool.data
    ensures !ArmAsl.Reserved(Flag(instr, 22), ImmsBits(instr))
    ensures i.body.Math? && InstructionOk(i) && HoldingTree(pool, initial, before, LogicalImmTree(instr), i.body.expr)
    ensures i == MathInstruction(instr, GetBitRegion(instr, 29, 30) == 3, GetBitRegion(instr, 29, 30) == 3, i.body.expr)
    ensures pool.data == old(pool.data) || fresh(pool.data)
  {
    hide LogicalImmediate, ImmsBits, SerAll;
    RdBound(instr);
    RnBound(instr);
    var setFlags := GetBitRegion(instr, 29, 30) == 3;
    var imm := MaskImmediate(instr);
    SmallImmediateFits(imm);
    var e := RootExpression(pool, Field(instr, 5, 9), BitwiseOp(GetBitRegion(instr, 29, 30)), Value(Immediate(imm)),
                            initial, before, Leaf(Immediate(imm)));
    i := MathInstruction(instr, setFlags, setFlags, e);
  }

  method MaskImmediate(instr: bv32) returns (imm: nat)
    requires ArmAsl.Accepts(Flag(instr, 22), ImmsBits(instr))
    ensures !ArmAsl.Reserved(Flag(instr, 22), ImmsBits(instr))
    ensures imm == LogicalImmediate(instr) < 0x1_0000_0000
  {
    var mask := ArmAsl.DecodeBitMasks(Flag(instr, 22), ImmsBits(instr), ImmrBits(instr));
    imm := CutToU32(mask);
  }

  /** `decode`: the branch and unimplemented classes push nothing. */
  method DecodeWord(pool: Pool, instr: bv32, ghost initial: nat, ghost before: seq<byte>) returns (i: Instruction)
    requires Accepts(instr)
    requires Holding(pool, initial, before, []) && HandleAt(|before|, 6) <= LIMIT
    modifies pool, pool.data
    ensures Holding(pool, initial, before, EmitItem(Describe(instr), |before|).nodes)
    ensures i == EmitItem(Describe(instr), |before|).instr && InstructionOk(i)
    ensures pool.data == old(pool.data) || fresh(pool.data)
  {
    if HasTree(instr) {
      if Classify(instr) == ADDSUB_IMM {
        i := DecodeAddSubImm(pool, instr, initial, before);
      } else if Classify(instr) == LOGICAL_IMM {
        i := DecodeLogicalImm(pool, instr, initial, before);
      } else if Classify(instr) == LOGICAL_SHIFT {
        i := DecodeDataRegLogicalShift(pool, instr, initial, before);
      } else {
        i := DecodeDataRegAddSubShift(pool, instr, initial, before);
      }
    } else {
      BranchesOk(instr);
      i := TreelessInstruction(instr);
    }
  }
}
