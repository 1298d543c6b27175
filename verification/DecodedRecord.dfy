/** What each instruction is decoded to, written out from the fields of the instruction: the whole tree and
    the whole record, and the records pushed for them in order. */
module DecodedRecord {
  import opened Bits
  import opened Iml
  import opened Machine
  import opened TreePool
  import opened ArmReference
  import opened Decode
  import opened LogicalMeaning
  import opened LogicalImmMeaning
  import opened AddSubMeaning

  // ---- the parts of a decoded instruction ----

  /** A source register: register 31 has become the constant 0. */
  function Source(n: bv5): Operand {
    if n == 31 then Immediate(0) else Register(n as nat)
  }

  function Bitwise3(opc: bv2): MathOp {
    if opc == 1 then OR else if opc == 2 then XOR else AND
  }

  function ShiftOf(kind: bv2): MathOp {
    if kind == 0 then LSL else if kind == 1 then LSR else if kind == 2 then ASR else ROR
  }

  /** A shifted register, with no shift when the amount is 0. */
  function Shifted(kind: bv2, rm: bv5, amount: bv6): Tree {
    if amount == 0 then Leaf(Source(rm)) else Node(ShiftOf(kind), Leaf(Source(rm)), Leaf(Immediate(amount as nat)))
  }

  /** A math record without its expression and its successor. */
  function MathRecord(rd: bv5, setFlags: bool, sf: bool, touched: bool): Instruction {
    Instruction(Math(rd as nat, setFlags, Compound(ADD, false, false, 0, 0)), sf, touched, touched, touched, touched, 0)
  }

  // ---- class by class ----

  lemma SourceIs(n: bv5)
    ensures RegisterLeaf(n as nat) == Leaf(Source(n))
  {
    RnIs31(n);
  }

  lemma ShiftedIs(kind: bv2, rm: bv5, amount: bv6)
    ensures ShiftedRegister(kind as bv32, rm as nat, amount as nat) == Shifted(kind, rm, amount)
  {
    SourceIs(rm);
    KindIs(kind);
    SixBits(amount);
    AmountZero(amount);
  }

  lemma AmountZero(amount: bv6)
    ensures amount as nat == 0 <==> amount == 0
  {
  }

  lemma LogicalShiftedRecord(i: ArmInstr)
    requires i.LogicalShifted? && Legal(i)
    ensures Accepts(Encode(i))
    ensures var operand := Shifted(i.shift, i.rm, i.imm6);
            Describe(Encode(i))
            == WithTree(Node(Bitwise3(i.opc), Leaf(Source(i.rn)), if i.n then Neg(operand) else operand),
                        MathRecord(i.rd, i.opc == 3, i.sf, i.opc == 3))
  {
    hide Encode, Describe, Accepts, RegisterLeaf, ShiftedRegister;
    ShiftedAcceptedIff(i);
    ShiftedEmission(i);
    LogicalShiftedFrame(i);
    SourceIs(i.rn);
    ShiftedIs(i.shift, i.rm, i.imm6);
    OpIs(i.opc);
  }

  /** The constant is the low half of the architecture's mask. */
  lemma LogicalImmRecord(i: ArmInstr)
    requires i.LogicalImm? && Legal(i)
    ensures Accepts(Encode(i)) && |ImmediateMask(i)| >= 32
    ensures Describe(Encode(i))
            == WithTree(Node(Bitwise3(i.opc), Leaf(Source(i.rn)), Leaf(Immediate(Val(ImmediateMask(i)[..32])))),
                        MathRecord(i.rd, i.opc == 3, i.sf, i.opc == 3))
  {
    MaskWidth(i);
    MaskConstant(i);
    hide Encode, Describe, Accepts, RegisterLeaf, Legal, CutMask, ImmediateMask, Val;
    ImmAcceptedIff(i);
    ImmEmission(i);
    LogicalImmFrame(i);
    SourceIs(i.rn);
    OpIs(i.opc);
  }

  lemma MaskConstant(i: ArmInstr)
    requires i.LogicalImm? && Legal(i)
    ensures |ImmediateMask(i)| == Width(i.sf) && Val(CutMask(i)) == Val(ImmediateMask(i)[..32])
  {
    MaskWidth(i);
    if i.sf {
      Mask64(i);
      FullMaskIs(i);
      ValZeroExtend(FullMask(i)[..32], 32);
    } else {
      CutMask32(i);
      assert ImmediateMask(i)[..32] == ImmediateMask(i);
    }
  }

  lemma AddSubImmRecord(i: ArmInstr)
    requires i.AddSubImm?
    ensures Accepts(Encode(i))
    ensures var imm := Leaf(Immediate(i.imm12 as nat));
            Describe(Encode(i))
            == WithTree(Node(if i.op then ADD else SUB, Leaf(Source(i.rn)),
                             if i.shift == 1 then Node(LSL, imm, Leaf(Immediate(12))) else imm),
                        MathRecord(i.rd, i.s, i.sf, false))
  {
    hide Encode, Describe, Accepts, RegisterLeaf;
    AddImmDescribed(i);
    SourceIs(i.rn);
  }

  lemma AddSubShiftedRecord(i: ArmInstr)
    requires i.AddSubShifted? && (Legal(i) || Accepts(Encode(i)))
    ensures Accepts(Encode(i))
    ensures Describe(Encode(i))
            == WithTree(Node(if i.op then ADD else SUB, Leaf(Source(i.rn)), Shifted(i.shift, i.rm, i.imm6)),
                        MathRecord(i.rd, i.s, i.sf, i.s))
  {
    hide Encode, Describe, Accepts, RegisterLeaf, ShiftedRegister, Legal;
    AddRegDescribed(i);
    SourceIs(i.rn);
    ShiftedIs(i.shift, i.rm, i.imm6);
  }

  // ---- what is pushed ----

  /** The records of a logical (shifted register) instruction when the pool's position is base: the operands
      of the shift, of the negation and of the operation, each pair in the order left, right. The right child
      of a negation is blank. */
  lemma LogicalShiftedPushes(i: ArmInstr, base: nat)
    requires i.LogicalShifted? && Legal(i)
    ensures Accepts(Encode(i)) && Describe(Encode(i)).WithTree? && Describe(Encode(i)).frame.body.Math?
    ensures var e := EmitItem(Describe(Encode(i)), base);
            var blank := Compound(ADD, false, false, 0, 0);
            var rn, rm, amount := Value(Source(i.rn)), Value(Source(i.rm)), Value(Immediate(i.imm6 as nat));
            var shift, op := ShiftOf(i.shift), Bitwise3(i.opc);
            && e.instr.body.Math?
            && if i.imm6 == 0 && !i.n then
                 e.nodes == [rn, rm] && e.instr.body.expr == Compound(op, false, false, base, base + 24)
               else if i.imm6 == 0 then
                 e.nodes == [rm, blank, rn, Compound(NEG, false, false, base, base + 24)]
                 && e.instr.body.expr == Compound(op, false, false, base + 48, base + 72)
               else if !i.n then
                 e.nodes == [rm, amount, rn, Compound(shift, false, false, base, base + 24)]
                 && e.instr.body.expr == Compound(op, false, false, base + 48, base + 72)
               else
                 e.nodes == [rm, amount, Compound(shift, false, false, base, base + 24), blank,
                             rn, Compound(NEG, false, false, base + 48, base + 72)]
                 && e.instr.body.expr == Compound(op, false, false, base + 96, base + 120)
  {
    hide Encode, Describe, Accepts, Legal, Build;
    LogicalShiftedRecord(i);
    var operand := Shifted(i.shift, i.rm, i.imm6);
    ShiftedBuilt(i.shift, i.rm, i.imm6, base);
    var second := if i.n then Neg(operand) else operand;
    if i.n {
      NegBuilt(operand, base);
    }
    RootBuilt(Bitwise3(i.opc), i.rn, second, base);
  }

  lemma ShiftedBuilt(kind: bv2, rm: bv5, amount: bv6, base: nat)
    ensures Build(Shifted(kind, rm, amount), [], base)
            == if amount == 0 then Built([], Value(Source(rm)))
               else Built([Value(Source(rm)), Value(Immediate(amount as nat))],
                          Compound(ShiftOf(kind), false, false, base, base + 24))
  {
  }

  lemma NegBuilt(t: Tree, base: nat)
    ensures var b := Build(t, [], base);
            Build(Neg(t), [], base)
            == Built(b.nodes + [b.expr, Compound(ADD, false, false, 0, 0)],
                     Compound(NEG, false, false, base + 24 * |b.nodes|, base + 24 * |b.nodes| + 24))
  {
  }

  lemma RootBuilt(op: MathOp, rn: bv5, t: Tree, base: nat)
    ensures var b := Build(t, [], base);
            Build(Node(op, Leaf(Source(rn)), t), [], base)
            == Built(b.nodes + [Value(Source(rn)), b.expr],
                     Compound(op, false, false, base + 24 * |b.nodes|, base + 24 * |b.nodes| + 24))
  {
  }
}
