/** Decoding preserves the meaning of the logical instructions. */
module LogicalMeaning {
  import opened Bits
  import opened Iml
  import opened Machine
  import opened ArmReference
  import opened ArmEncoding
  import opened OpMeaning
  import opened Decode

  // ---- registers, constants and results ----

  lemma ReadMeaning(s: State, n: nat, w: nat)
    requires StateOk(s) && n < 32 && w <= 64
    ensures EvalTree(RegisterLeaf(n), s, w) == Val(ReadX(s, n, w))
  {
    if n == 31 {
      ValZeros(w);
      DivModUnique(0, Pow2(w), 0, 0);
    } else {
      ValCut(s.x[n], w);
    }
  }

  /** The value constructor: register 31 is the zero register, and SP when the caller forces it. */
  lemma ForcedMeaning(s: State, n: nat, force: bool, w: nat)
    requires StateOk(s) && n < 32 && w <= 64
    ensures EvalTree(Leaf(RegisterOperand(n, force)), s, w)
            == Val(if n == 31 && force then s.sp[..w] else ReadX(s, n, w))
  {
    if n == 31 && force {
      ValCut(s.sp, w);
    } else {
      ReadMeaning(s, n, w);
    }
  }

  lemma ConstantMeaning(s: State, c: nat, w: nat)
    requires StateOk(s) && c < Pow2(w)
    ensures EvalTree(Leaf(Immediate(c)), s, w) == c
  {
    DivModUnique(c, Pow2(w), 0, c);
  }

  lemma AmountFits(c: nat, w: nat)
    requires c < w && (w == 32 || w == 64)
    ensures c < Pow2(w)
  {
    Pow2Words();
  }

  lemma ShiftByZero(x: Bits, kind: bv2)
    requires |x| > 0
    ensures Shift(x, kind, 0) == x
  {
    if kind == 3 {
      RotateBelow(x, 0);
    }
  }

  /** A shift node, or no node when the amount is 0, is the architecture's shift. */
  lemma ShiftMeaning(s: State, kind: bv2, m: nat, amount: nat, w: nat)
    requires StateOk(s) && m < 32 && amount < w && (w == 32 || w == 64)
    ensures EvalTree(ShiftedRegister(kind as bv32, m, amount), s, w) == Val(Shift(ReadX(s, m, w), kind, amount))
  {
    hide EvalLsl, EvalLsr, EvalAsr, EvalRor, ReadX, Val, Pow2;
    var x := ReadX(s, m, w);
    ReadMeaning(s, m, w);
    if amount == 0 {
      ShiftByZero(x, kind);
    } else {
      AmountFits(amount, w);
      ConstantMeaning(s, amount, w);
      KindIs(kind);
      if kind == 0 {
        LslMeaning(x, amount);
      } else if kind == 1 {
        LsrMeaning(x, amount);
      } else if kind == 2 {
        AsrMeaning(x, amount);
      } else {
        RorMeaning(x, amount);
      }
    }
  }

  lemma KindIs(kind: bv2)
    ensures ShiftType(kind as bv32)
             == if kind == 0 then LSL else if kind == 1 then LSR else if kind == 2 then ASR else ROR
  {
  }

  function OpOf(op: BitOp): MathOp {
    match op
    case And => AND
    case Or => OR
    case Xor => XOR
  }

  lemma OpIs(opc: bv2)
    ensures BitwiseOp(opc as bv32) == OpOf(LogicalOp(opc))
  {
  }

  lemma RootMeaning(s: State, op: BitOp, n: nat, t: Tree, y: Bits, w: nat)
    requires StateOk(s) && n < 32 && |y| == w <= 64 && EvalTree(t, s, w) == Val(y)
    ensures EvalTree(Node(OpOf(op), RegisterLeaf(n), t), s, w) == Val(Bitwise(op, ReadX(s, n, w), y))
  {
    ReadMeaning(s, n, w);
    BitwiseMeaning(op, ReadX(s, n, w), y);
  }

  /** A value written to a register is the result zero-extended. */
  lemma WriteMeaning(result: Bits, w: nat)
    requires |result| <= w
    ensures FromNat(Val(result), w) == result + Zeros(w - |result|)
  {
    ValZeroExtend(result, w - |result|);
    FromNatVal(result + Zeros(w - |result|));
  }

  lemma FlagMeaning(result: Bits)
    requires |result| > 0
    ensures ValueFlags(Val(result), |result|) == Flags(result[|result| - 1], result == Zeros(|result|), false, false)
  {
    SignBit(result);
    ValZeros(|result|);
    if Val(result) == 0 {
      ValInjective(result, Zeros(|result|));
    }
  }

  /** A bitwise instruction does with the value of the architecture's result what the architecture
      does with the result. */
  lemma ExecValueMeaning(i: Instruction, s: State, result: Bits, d: nat)
    requires StateOk(s) && i.body.Math? && i.body.dest == d < 32 && |result| == Width(i.is64)
    ensures ExecValue(i, Val(result), ValueFlags(Val(result), |result|), s)
            == WriteX(if i.body.setFlags then LogicalFlags(s, result) else s, d, result)
  {
    WriteMeaning(result, 64);
    FlagMeaning(result);
  }

  lemma ExecMeaning(i: Instruction, t: Tree, s: State, result: Bits, d: nat)
    requires StateOk(s) && i.body.Math? && i.body.dest == d < 32
    requires t.Node? && t.op != ADD && t.op != SUB
    requires |result| == Width(i.is64) && EvalTree(t, s, Width(i.is64)) == Val(result)
    ensures ExecMath(i, t, s) == WriteX(if i.body.setFlags then LogicalFlags(s, result) else s, d, result)
  {
    ExecValueMeaning(i, s, result, d);
  }

  // ---- logical (shifted register) ----

  lemma ShiftedRd(i: ArmInstr)
    requires i.LogicalShifted?
    ensures GetBitRegion(Encode(i), 0, 4) == i.rd as bv32
  {
  }

  lemma ShiftedRn(i: ArmInstr)
    requires i.LogicalShifted?
    ensures GetBitRegion(Encode(i), 5, 9) == i.rn as bv32
  {
  }

  lemma ShiftedImm6(i: ArmInstr)
    requires i.LogicalShifted?
    ensures GetBitRegion(Encode(i), 10, 15) == i.imm6 as bv32
  {
  }

  lemma ShiftedRm(i: ArmInstr)
    requires i.LogicalShifted?
    ensures GetBitRegion(Encode(i), 16, 20) == i.rm as bv32
  {
  }

  lemma ShiftedN(i: ArmInstr)
    requires i.LogicalShifted?
    ensures Flag(Encode(i), 21) == i.n
  {
  }

  lemma ShiftedKind(i: ArmInstr)
    requires i.LogicalShifted?
    ensures GetBitRegion(Encode(i), 22, 23) == i.shift as bv32
  {
  }

  lemma ShiftedOpc(i: ArmInstr)
    requires i.LogicalShifted?
    ensures GetBitRegion(Encode(i), 29, 30) == i.opc as bv32
  {
  }

  lemma ShiftedSf(i: ArmInstr)
    requires i.LogicalShifted?
    ensures Flag(Encode(i), 31) == i.sf
  {
  }

  lemma ShiftedClass(i: ArmInstr)
    requires i.LogicalShifted?
    ensures Encode(i) & 0x1F000000 == 0x0A000000
  {
  }

  lemma FiveBits(x: bv5)
    ensures (x as bv32) as nat == x as nat < 32
  {
  }

  lemma SixBits(x: bv6)
    ensures (x as bv32) as nat == x as nat < 64
  {
  }

  /** The instruction a word of the class encodes. */
  function AsLogicalShifted(w: bv32): ArmInstr {
    LogicalShifted(w >> 31 == 1, ((w >> 29) & 3) as bv2, ((w >> 22) & 3) as bv2, (w >> 21) & 1 == 1,
                   ((w >> 16) & 31) as bv5, ((w >> 10) & 63) as bv6, ((w >> 5) & 31) as bv5, (w & 31) as bv5)
  }

  lemma EncodesBack(w: bv32)
    requires w & 0x1F000000 == 0x0A000000
    ensures Encode(AsLogicalShifted(w)) == w
  {
  }

  function SecondOperandOf(i: ArmInstr): Tree
    requires i.LogicalShifted?
  {
    var t := ShiftedRegister(i.shift as bv32, i.rm as nat, i.imm6 as nat);
    if i.n then Neg(t) else t
  }

  function LogicalShiftedTree(i: ArmInstr): Tree
    requires i.LogicalShifted?
  {
    Node(BitwiseOp(i.opc as bv32), RegisterLeaf(i.rn as nat), SecondOperandOf(i))
  }

  lemma ShiftedRouted(i: ArmInstr)
    requires i.LogicalShifted?
    ensures Classify(Encode(i)) == LOGICAL_SHIFT
  {
    ShiftedClass(i);
    RegisterClasses(Encode(i));
  }

  lemma Bit5(imm6: bv6)
    ensures GetSingleBit(imm6 as bv32, 5) == 0 <==> imm6 < 32
  {
  }

  lemma ShiftedNonzero(i: ArmInstr)
    requires i.LogicalShifted?
    ensures Encode(i) != 0
  {
    ShiftedClass(i);
  }

  /** The decoder accepts a word of the class exactly when the architecture allocates it. */
  lemma ShiftedAcceptedIff(i: ArmInstr)
    requires i.LogicalShifted?
    ensures Accepts(Encode(i)) <==> Legal(i)
  {
    ShiftedRouted(i);
    ShiftedNonzero(i);
    ShiftedSf(i);
    ShiftedImm6(i);
    Bit5(i.imm6);
  }

  lemma ShiftedTreeIs(i: ArmInstr)
    requires i.LogicalShifted?
    ensures ShiftedTree(Encode(i)) == ShiftedRegister(i.shift as bv32, i.rm as nat, i.imm6 as nat)
  {
    ShiftedKind(i);
    ShiftedRm(i);
    ShiftedImm6(i);
    FiveBits(i.rm);
    SixBits(i.imm6);
  }

  lemma ShiftedDecoded(i: ArmInstr)
    requires i.LogicalShifted?
    ensures LogicalShiftTree(Encode(i)) == LogicalShiftedTree(i)
  {
    ShiftedTreeIs(i);
    ShiftedN(i);
    ShiftedOpc(i);
    ShiftedRn(i);
    FiveBits(i.rn);
  }

  lemma SecondOperandMeaning(i: ArmInstr, s: State)
    requires i.LogicalShifted? && Legal(i) && StateOk(s)
    ensures var y := ShiftedOperand(i, s);
            EvalTree(SecondOperandOf(i), s, Width(i.sf)) == Val(if i.n then Not(y) else y)
  {
    FiveBits(i.rm);
    AmountBelowWidth(i.sf, i.imm6);
    ShiftMeaning(s, i.shift, i.rm as nat, i.imm6 as nat, Width(i.sf));
    NegMeaning(ShiftedOperand(i, s));
  }

  /** The tree the decoder builds computes the architecture's result. */
  lemma LogicalShiftedValue(i: ArmInstr, s: State)
    requires i.LogicalShifted? && Legal(i) && StateOk(s)
    ensures EvalTree(LogicalShiftedTree(i), s, Width(i.sf)) == Val(LogicalShiftedResult(i, s))
  {
    var y := ShiftedOperand(i, s);
    SecondOperandMeaning(i, s);
    OpIs(i.opc);
    FiveBits(i.rn);
    RootMeaning(s, LogicalOp(i.opc), i.rn as nat, SecondOperandOf(i), if i.n then Not(y) else y, Width(i.sf));
  }

  lemma OpcIsThree(opc: bv2)
    ensures (opc as bv32) == 3 <==> opc == 3
  {
  }

  lemma ShiftedHeader(i: ArmInstr, e: Expression)
    requires i.LogicalShifted?
    ensures var m := MathInstruction(Encode(i), SetsFlags(Encode(i)), SetsFlags(Encode(i)), e);
            m.body.dest == i.rd as nat < 32 && m.body.setFlags == (i.opc == 3) && m.is64 == i.sf
  {
    ShiftedRouted(i);
    ShiftedRd(i);
    ShiftedOpc(i);
    ShiftedSf(i);
    FiveBits(i.rd);
    OpcIsThree(i.opc);
  }

  lemma ShiftedEmission(i: ArmInstr)
    requires i.LogicalShifted? && Accepts(Encode(i))
    ensures Describe(Encode(i)).WithTree? && Describe(Encode(i)).tree == LogicalShiftedTree(i)
    ensures var m := Describe(Encode(i)).frame;
            m.body.Math? && m.body.dest == i.rd as nat && m.body.setFlags == (i.opc == 3) && m.is64 == i.sf
  {
    ShiftedRouted(i);
    ShiftedDecoded(i);
    ShiftedHeader(i, Describe(Encode(i)).frame.body.expr);
  }

  /** The record but for its tree, field by field: the flags are set, and all four marked as touched, for
      ANDS and BICS only. */
  lemma LogicalShiftedFrame(i: ArmInstr)
    requires i.LogicalShifted? && Legal(i)
    ensures Accepts(Encode(i)) && Describe(Encode(i)).WithTree?
    ensures var flags := i.opc == 3;
            Describe(Encode(i)).frame
            == Instruction(Math(i.rd as nat, flags, Compound(ADD, false, false, 0, 0)),
                           i.sf, flags, flags, flags, flags, 0)
  {
    ShiftedAcceptedIff(i);
    ShiftedRouted(i);
    ShiftedHeader(i, BLANK);
    ShiftedOpc(i);
    OpcIsThree(i.opc);
  }

  /** Decoding a logical (shifted register) instruction preserves its meaning in every state:
      destination, zero register, flags and width included. */
  lemma LogicalShiftedFaithful(i: ArmInstr, s: State)
    requires i.LogicalShifted? && Legal(i) && StateOk(s)
    ensures Accepts(Encode(i)) && Describe(Encode(i)).WithTree?
    ensures ExecMath(Describe(Encode(i)).frame, Describe(Encode(i)).tree, s) == ExecLogicalShifted(i, s)
  {
    ShiftedAcceptedIff(i);
    ShiftedRouted(i);
    ShiftedEmission(i);
    LogicalShiftedValue(i, s);
    FiveBits(i.rd);
    ExecMeaning(Describe(Encode(i)).frame, LogicalShiftedTree(i), s, LogicalShiftedResult(i, s), i.rd as nat);
  }

  /** The same for words: every word the dispatch routes to this class and the decoder accepts encodes
      a legal instruction, and is decoded to its meaning. */
  lemma LogicalShiftedWordFaithful(w: bv32, s: State)
    requires Accepts(w) && Classify(w) == LOGICAL_SHIFT && StateOk(s)
    ensures var i := AsLogicalShifted(w);
            && Legal(i) && Encode(i) == w && Describe(w).WithTree? && Describe(w).frame.body.Math?
            && ExecMath(Describe(w).frame, Describe(w).tree, s) == ExecLogicalShifted(i, s)
  {
    RegisterClasses(w);
    EncodesBack(w);
    ShiftedAcceptedIff(AsLogicalShifted(w));
    LogicalShiftedFaithful(AsLogicalShifted(w), s);
  }
}
