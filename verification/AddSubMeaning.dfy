/** Add and subtract: exactly when the decoded record does what the architecture does. The decoder maps
    bit 30 to the opposite operation, reads register 31 of the immediate form as the constant 0 where
    the architecture reads SP, and drops a result that the architecture writes to SP. */
module AddSubMeaning {
  import opened Bits
  import opened Iml
  import opened Machine
  import opened TreePool
  import opened ArmReference
  import opened ArmEncoding
  import opened OpMeaning
  import opened SumMeaning
  import opened Decode
  import opened LogicalMeaning
  import opened LogicalImmMeaning

  // ---- immediate ----

  lemma AddImmRn(i: ArmInstr)
    requires i.AddSubImm?
    ensures GetBitRegion(Encode(i), 5, 9) == i.rn as bv32
  {
  }

  lemma AddImmImm(i: ArmInstr)
    requires i.AddSubImm?
    ensures GetBitRegion(Encode(i), 10, 21) == i.imm12 as bv32
  {
  }

  lemma AddImmShift(i: ArmInstr)
    requires i.AddSubImm?
    ensures GetBitRegion(Encode(i), 22, 23) == i.shift as bv32
  {
  }

  lemma AddImmOp(i: ArmInstr)
    requires i.AddSubImm?
    ensures Flag(Encode(i), 30) == i.op
  {
  }

  lemma AddImmClass(i: ArmInstr)
    requires i.AddSubImm?
    ensures Encode(i) & 0x1F000000 == 0x11000000 && Encode(i) != 0
  {
  }

  lemma TwelveBits(x: bv12)
    ensures (x as bv32) as nat == x as nat < 0x1000
    ensures x as nat == 0 <==> x == 0
  {
  }

  lemma ShiftIsOne(x: bv2)
    ensures (x as bv32) == 1 <==> x == 1
  {
  }

  lemma AddImmAccepted(i: ArmInstr)
    requires i.AddSubImm?
    ensures Classify(Encode(i)) == ADDSUB_IMM && Accepts(Encode(i)) && Describe(Encode(i)).WithTree?
  {
    AddImmClass(i);
    ImmediateClasses(Encode(i));
  }

  function ScaledTree(shifted: bool, imm12: nat): Tree {
    var imm := Leaf(Immediate(imm12));
    if shifted then Node(LSL, imm, Leaf(Immediate(12))) else imm
  }

  lemma ScaledMeaning(imm12: nat, shifted: bool, s: State, w: nat)
    requires StateOk(s) && imm12 < 0x1000 && (w == 32 || w == 64)
    ensures var x := FromNat(imm12, 12);
            EvalTree(ScaledTree(shifted, imm12), s, w)
            == Val(if shifted then Zeros(12) + x + Zeros(w - 24) else x + Zeros(w - 12))
  {
    hide FromNat, EvalLsl, Val;
    var x := FromNat(imm12, 12);
    Pow2Words();
    Pow2Twelve();
    FromNatSmall(imm12, 12);
    ValZeroExtend(x, w - 12);
    ConstantMeaning(s, imm12, w);
    if shifted {
      ConstantMeaning(s, 12, w);
      LslMeaning(x + Zeros(w - 12), 12);
      assert Zeros(12) + (x + Zeros(w - 12))[..w - 12] == Zeros(12) + x + Zeros(w - 24);
    }
  }

  lemma Pow2Twelve()
    ensures Pow2(12) == 0x1000
  {
    assert Pow2(6) == 64;
    Pow2Add(6, 6);
  }

  lemma AddImmTree(i: ArmInstr)
    requires i.AddSubImm?
    ensures AddSubImmTree(Encode(i))
            == Node(SumOp(!i.op), RegisterLeaf(i.rn as nat), ScaledTree(i.shift == 1, i.imm12 as nat))
  {
    AddImmRn(i);
    AddImmImm(i);
    AddImmShift(i);
    AddImmOp(i);
    FiveBits(i.rn);
    TwelveBits(i.imm12);
    ShiftIsOne(i.shift);
  }

  /** What the decoded record adds or subtracts: bit 30 the wrong way round, and register 31 as zero. */
  function DecodedImmSum(i: ArmInstr, s: State): (r: Sum)
    requires i.AddSubImm? && Legal(i) && StateOk(s)
    ensures |r.result| == Width(i.sf)
  {
    AddSub(!i.op, ReadX(s, RegNumber(i.rn), Width(i.sf)), ImmOperand(i))
  }

  /** What it does: register 31 discards the result. */
  function DecodedImmExec(i: ArmInstr, s: State): State
    requires i.AddSubImm? && Legal(i) && StateOk(s)
  {
    var sum := DecodedImmSum(i, s);
    WriteX(if i.s then s.(flags := sum.flags) else s, RegNumber(i.rd), sum.result)
  }

  function RegNumber(x: bv5): (r: nat)
    ensures r < 32 && r == x as nat
    ensures r == 31 <==> x == 31
  {
    RnIs31(x);
    x as nat
  }

  lemma ScaledValue(x: Bits, shifted: bool, w: nat)
    requires |x| == 12 && (w == 32 || w == 64)
    ensures Val(if shifted then Zeros(12) + x + Zeros(w - 24) else x + Zeros(w - 12))
            == if shifted then 0x1000 * Val(x) else Val(x)
  {
    hide Val, Pow2;
    Pow2Twelve();
    ValZeroExtend(x, w - 12);
    ValAppend(Zeros(12), x);
    ValZeros(12);
    ValZeroExtend(Zeros(12) + x, w - 24);
  }

  lemma ImmOperandValue(i: ArmInstr)
    requires i.AddSubImm? && Legal(i)
    ensures Val(ImmOperand(i)) == 0 <==> i.imm12 == 0
    ensures 2 * Val(ImmOperand(i)) < Pow2(Width(i.sf))
  {
    hide FromNat, Val, Pow2;
    TwelveBits(i.imm12);
    Pow2Twelve();
    Pow2Words();
    FromNatSmall(i.imm12 as nat, 12);
    ScaledValue(FromNat(i.imm12 as nat, 12), i.shift == 1, Width(i.sf));
  }

  lemma ImmNotOwnNegative(i: ArmInstr)
    requires i.AddSubImm? && Legal(i)
    ensures Val(ImmOperand(i)) == 0 || 2 * Val(ImmOperand(i)) == Pow2(Width(i.sf)) <==> i.imm12 == 0
  {
    ImmOperandValue(i);
  }

  /** The record of an add or subtract immediate does this. */
  lemma AddImmExec(i: ArmInstr, s: State)
    requires i.AddSubImm? && Legal(i) && StateOk(s)
    ensures Accepts(Encode(i)) && Describe(Encode(i)).WithTree? && Describe(Encode(i)).frame.body.Math?
    ensures ExecMath(Describe(Encode(i)).frame, Describe(Encode(i)).tree, s) == DecodedImmExec(i, s)
  {
    hide EvalTree, Val, FromNat, ReadX, RegisterLeaf, ScaledTree, Encode, AddSubImmTree, ExecMath, AddSub;
    AddSubImmFrame(i);
    AddImmAccepted(i);
    assert Describe(Encode(i)).tree == AddSubImmTree(Encode(i));
    AddImmTree(i);
    TwelveBits(i.imm12);
    ReadMeaning(s, RegNumber(i.rn), Width(i.sf));
    ScaledMeaning(i.imm12 as nat, i.shift == 1, s, Width(i.sf));
    SumExec(Describe(Encode(i)).frame, !i.op, RegisterLeaf(i.rn as nat), ScaledTree(i.shift == 1, i.imm12 as nat), s,
            ReadX(s, RegNumber(i.rn), Width(i.sf)), ImmOperand(i));
  }

  // When it is right.

  predicate ImmResultRight(i: ArmInstr, s: State)
    requires i.AddSubImm? && Legal(i) && StateOk(s)
  {
    DecodedImmSum(i, s).result == AddSubImmSum(i, s).result
  }

  /** The source SP is read as 0: the decoded result does not depend on SP, and the architecture's does. */
  lemma StackPointerShows(i: ArmInstr)
    requires i.AddSubImm? && Legal(i) && i.rn == 31
    ensures exists s :: StateOk(s) && !ImmResultRight(i, s)
  {
    hide Pow2, Val, AddSub, FromNat;
    var w := Width(i.sf);
    var s, t := Uniform(Zeros(64), Zeros(64)), Uniform(Zeros(64), OneBit(0));
    assert RegNumber(i.rn) == 31;
    ZeroAndOne(w);
    ImmOperandValue(i);
    SumsDiffer(i.op, s.sp[..w], t.sp[..w], ImmOperand(i));
    assert DecodedImmSum(i, s) == DecodedImmSum(i, t);
    assert !ImmResultRight(i, s) || !ImmResultRight(i, t);
  }

  lemma ZeroAndOne(w: nat)
    requires 1 <= w <= 64
    ensures Val(Zeros(64)[..w]) == 0 && Val(OneBit(0)[..w]) == 1
  {
    assert Zeros(64)[..w] == Zeros(w);
    ValZeros(w);
    assert OneBit(0)[..w] == [true] + Zeros(w - 1);
    ValZeroExtend([true], w - 1);
    assert Val([true]) == 1;
  }

  /** The result is right in every state exactly when 0 is added or subtracted and the source is not SP. */
  lemma ImmResultRightIff(i: ArmInstr)
    requires i.AddSubImm? && Legal(i)
    ensures (forall s :: StateOk(s) ==> ImmResultRight(i, s)) <==> i.imm12 == 0 && i.rn != 31
  {
    hide Pow2, Val, AddSub, ReadX, ImmOperand;
    if i.rn == 31 {
      StackPointerShows(i);
    } else {
      ImmNotOwnNegative(i);
      forall s | StateOk(s)
        ensures ImmResultRight(i, s) <==> i.imm12 == 0
      {
        OppositeResultIff(i.op, ReadX(s, RegNumber(i.rn), Width(i.sf)), ImmOperand(i));
      }
      assert StateOk(Uniform(Zeros(64), Zeros(64)));
    }
  }

  lemma DecodedImmFlagsWrong(i: ArmInstr, s: State)
    requires i.AddSubImm? && Legal(i) && StateOk(s) && i.s
    requires i.rn != 31 || s.sp == Zeros(64)
    ensures DecodedImmExec(i, s).flags != ExecAddSubImm(i, s).flags
  {
    hide AddSub, ImmOperand;
    var w := Width(i.sf);
    assert Zeros(64)[..w] == Zeros(w);
    OppositeFlagsDiffer(i.op, ReadX(s, RegNumber(i.rn), w), ImmOperand(i));
  }

  /** The guards of the departures: setting flags, reading SP, operating on anything but 0, and writing
      SP, which goes unnoticed only when SP is written to itself. */
  predicate ImmFaithful(i: ArmInstr)
    requires i.AddSubImm?
  {
    !i.s && i.imm12 == 0 && if i.rd == 31 then i.rn == 31 && i.sf else i.rn != 31
  }

  /** What the architecture writes to SP is what it held, in every state, exactly for SP + 0 and SP - 0
      at 64 bits. */
  lemma WritesSpBackIff(i: ArmInstr)
    requires i.AddSubImm? && Legal(i) && !i.s && i.rd == 31
    ensures (forall s :: StateOk(s) ==> ExecAddSubImm(i, s) == s) <==> i.imm12 == 0 && i.rn == 31 && i.sf
  {
    hide Pow2, Val, AddSub, ReadX, ImmOperand;
    assert RegNumber(i.rd) == 31;
    ImmOperandValue(i);
    if i.rn != 31 {
      SpNotFromRegister(i);
    } else if i.imm12 != 0 {
      var s := Uniform(Zeros(64), Zeros(64));
      SpMoved(i, s);
    } else if !i.sf {
      SpTopCleared(i);
    } else {
      forall s | StateOk(s)
        ensures ExecAddSubImm(i, s) == s
      {
        assert s.sp[..64] == s.sp;
        SumUnchangedIff(i.op, s.sp, ImmOperand(i));
        assert s.sp + Zeros(0) == s.sp;
      }
    }
  }

  lemma SpNotFromRegister(i: ArmInstr)
    requires i.AddSubImm? && Legal(i) && !i.s && i.rd == 31 && i.rn != 31
    ensures exists s :: StateOk(s) && ExecAddSubImm(i, s) != s
  {
    hide AddSub, ImmOperand;
    assert RegNumber(i.rd) == 31 && RegNumber(i.rn) != 31;
    var s := Uniform(Zeros(64), Zeros(64));
    var t := Uniform(Zeros(64), Ones(64));
    assert AddSubImmSum(i, s) == AddSubImmSum(i, t);
    assert ExecAddSubImm(i, s).sp == ExecAddSubImm(i, t).sp;
    assert Zeros(64)[0] != Ones(64)[0];
    assert s.sp != t.sp;
    assert ExecAddSubImm(i, s) != s || ExecAddSubImm(i, t) != t;
  }

  lemma SpMoved(i: ArmInstr, s: State)
    requires i.AddSubImm? && Legal(i) && StateOk(s) && !i.s && i.rd == 31 && i.rn == 31 && i.imm12 != 0
    ensures ExecAddSubImm(i, s) != s
  {
    hide Pow2, Val, AddSub, ImmOperand;
    assert RegNumber(i.rd) == 31 && RegNumber(i.rn) == 31;
    var w := Width(i.sf);
    ImmOperandValue(i);
    SumUnchangedIff(i.op, s.sp[..w], ImmOperand(i));
    assert ExecAddSubImm(i, s).sp[..w] == AddSubImmSum(i, s).result;
  }

  lemma SpTopCleared(i: ArmInstr)
    requires i.AddSubImm? && Legal(i) && !i.s && i.rd == 31 && !i.sf
    ensures exists s :: StateOk(s) && ExecAddSubImm(i, s) != s
  {
    hide AddSub, ImmOperand;
    assert RegNumber(i.rd) == 31;
    var s := Uniform(Zeros(64), Ones(64));
    assert !ExecAddSubImm(i, s).sp[63];
    assert s.sp[63];
  }

  lemma ResultWritten(s: State, d: nat, r: Bits, r': Bits)
    requires StateOk(s) && d < 31 && |r| == |r'| <= 64
    ensures WriteX(s, d, r) == WriteX(s, d, r') <==> r == r'
  {
    var n := |r|;
    assert WriteX(s, d, r).x[d][..n] == r && WriteX(s, d, r').x[d][..n] == r';
  }

  /** Without flags and with a general destination, only the result matters. */
  lemma ImmExecRight(i: ArmInstr, s: State)
    requires i.AddSubImm? && Legal(i) && StateOk(s) && !i.s && i.rd != 31
    ensures DecodedImmExec(i, s) == ExecAddSubImm(i, s) <==> ImmResultRight(i, s)
  {
    hide AddSub, ImmOperand, ReadX, WriteX;
    ResultWritten(s, RegNumber(i.rd), DecodedImmSum(i, s).result, AddSubImmSum(i, s).result);
  }

  lemma DecodedImmFaithfulIff(i: ArmInstr)
    requires i.AddSubImm? && Legal(i)
    ensures (forall s :: StateOk(s) ==> DecodedImmExec(i, s) == ExecAddSubImm(i, s)) <==> ImmFaithful(i)
  {
    hide DecodedImmExec, ExecAddSubImm, ImmResultRight;
    if i.s {
      DecodedImmFlagsWrong(i, Uniform(Zeros(64), Zeros(64)));
    } else if i.rd == 31 {
      WritesSpBackIff(i);
      forall s | StateOk(s)
        ensures DecodedImmExec(i, s) == s
      {
        DroppedResult(i, s);
      }
    } else {
      ImmResultRightIff(i);
      forall s | StateOk(s)
        ensures DecodedImmExec(i, s) == ExecAddSubImm(i, s) <==> ImmResultRight(i, s)
      {
        ImmExecRight(i, s);
      }
    }
  }

  lemma DroppedResult(i: ArmInstr, s: State)
    requires i.AddSubImm? && Legal(i) && StateOk(s) && !i.s && i.rd == 31
    ensures DecodedImmExec(i, s) == s
  {
    assert RegNumber(i.rd) == 31;
  }

  /** An add or subtract immediate is decoded to its meaning in every state exactly when it sets no flags
      and moves one general register to another, or the whole of SP to itself. */
  lemma AddSubImmFaithfulIff(i: ArmInstr)
    requires i.AddSubImm? && Legal(i)
    ensures Accepts(Encode(i)) && Describe(Encode(i)).WithTree? && Describe(Encode(i)).frame.body.Math?
    ensures (forall s :: StateOk(s) ==>
               ExecMath(Describe(Encode(i)).frame, Describe(Encode(i)).tree, s) == ExecAddSubImm(i, s))
            <==> ImmFaithful(i)
  {
    hide Encode, Describe, ExecMath, DecodedImmExec, ExecAddSubImm, Accepts, Legal;
    AddImmExec(i, Uniform(Zeros(64), Zeros(64)));
    forall s | StateOk(s)
      ensures ExecMath(Describe(Encode(i)).frame, Describe(Encode(i)).tree, s) == DecodedImmExec(i, s)
    {
      AddImmExec(i, s);
    }
    DecodedImmFaithfulIff(i);
  }

  /** The record of a flag-setting add or subtract immediate leaves wrong flags in every state if its
      source is not SP, and in every state where SP is 0 if it is. */
  lemma ImmFlagsWrong(i: ArmInstr, s: State)
    requires i.AddSubImm? && Legal(i) && StateOk(s) && i.s
    requires i.rn != 31 || s.sp == Zeros(64)
    ensures Accepts(Encode(i)) && Describe(Encode(i)).WithTree? && Describe(Encode(i)).frame.body.Math?
    ensures ExecMath(Describe(Encode(i)).frame, Describe(Encode(i)).tree, s).flags != ExecAddSubImm(i, s).flags
  {
    hide Encode, Describe, Accepts, ExecMath, ExecAddSubImm, DecodedImmExec, Legal;
    AddImmExec(i, s);
    DecodedImmFlagsWrong(i, s);
  }

  /** SUB SP, SP, #0x16, the stack setup of test/square.s: its record changes nothing, in any state, and
      the instruction moves SP in every state. */
  lemma StackSetupDropped(s: State)
    requires StateOk(s)
    ensures var i := AddSubImm(true, true, false, 0, 0x16, 31, 31);
            && Legal(i) && Encode(i) == 0xD1005BFF && Accepts(Encode(i))
            && Describe(Encode(i)).WithTree? && Describe(Encode(i)).frame.body.Math?
            && ExecMath(Describe(Encode(i)).frame, Describe(Encode(i)).tree, s) == s
            && ExecAddSubImm(i, s) != s
  {
    hide Describe, Accepts, ExecMath, ExecAddSubImm, DecodedImmExec;
    var i := AddSubImm(true, true, false, 0, 0x16, 31, 31);
    AddImmExec(i, s);
    DroppedResult(i, s);
    SpMoved(i, s);
  }

  lemma AddImmRd(i: ArmInstr)
    requires i.AddSubImm?
    ensures GetBitRegion(Encode(i), 0, 4) == i.rd as bv32
  {
  }

  lemma AddImmS(i: ArmInstr)
    requires i.AddSubImm?
    ensures Flag(Encode(i), 29) == i.s
  {
  }

  lemma AddImmSf(i: ArmInstr)
    requires i.AddSubImm?
    ensures Flag(Encode(i), 31) == i.sf
  {
  }

  /** The record holds the word's destination field, width and flag-setting bit; its marks of touched
      flags stay clear even when flags are set. */
  lemma AddSubImmFrame(i: ArmInstr)
    requires i.AddSubImm?
    ensures Accepts(Encode(i)) && Describe(Encode(i)).WithTree?
    ensures var f := Describe(Encode(i)).frame;
            && f.body.Math? && f.body.dest == i.rd as nat < 32 && f.body.setFlags == i.s && f.is64 == i.sf
            && !f.n && !f.z && !f.c && !f.v
  {
    AddImmAccepted(i);
    AddImmRd(i);
    AddImmS(i);
    AddImmSf(i);
    FiveBits(i.rd);
  }

  lemma AddImmDescribed(i: ArmInstr)
    requires i.AddSubImm?
    ensures Accepts(Encode(i))
    ensures Describe(Encode(i))
            == WithTree(Node(SumOp(!i.op), RegisterLeaf(i.rn as nat), ScaledTree(i.shift == 1, i.imm12 as nat)),
                        Instruction(Math(i.rd as nat, i.s, BLANK), i.sf, false, false, false, false, 0))
  {
    hide Encode, RegisterLeaf, ScaledTree, AddSubImmTree;
    AddImmAccepted(i);
    AddImmTree(i);
    AddSubImmFrame(i);
  }

  function Unshifted(i: ArmInstr): (r: ArmInstr)
    requires i.AddSubImm?
    ensures r.AddSubImm? && Legal(r)
  {
    AddSubImm(i.sf, i.op, i.s, 0, i.imm12, i.rn, i.rd)
  }

  /** Every word of the class is accepted. The architecture reserves those whose shift field is 10 or 11;
      they are decoded like the one with shift field 00. */
  lemma ReservedShiftIgnored(i: ArmInstr)
    requires i.AddSubImm?
    ensures Classify(Encode(i)) == ADDSUB_IMM && Accepts(Encode(i))
    ensures !Legal(i) ==> Accepts(Encode(Unshifted(i))) && Describe(Encode(i)) == Describe(Encode(Unshifted(i)))
  {
    hide Encode, Describe, Accepts, Classify;
    AddImmAccepted(i);
    AddImmDescribed(i);
    AddImmDescribed(Unshifted(i));
  }

  /** The instruction a word of the class encodes. */
  function AsAddSubImm(w: bv32): ArmInstr {
    AddSubImm(w >> 31 == 1, (w >> 30) & 1 == 1, (w >> 29) & 1 == 1, ((w >> 22) & 3) as bv2,
              ((w >> 10) & 0xFFF) as bv12, ((w >> 5) & 31) as bv5, (w & 31) as bv5)
  }

  lemma AddImmEncodesBack(w: bv32)
    requires w & 0x1F000000 == 0x11000000
    ensures AsAddSubImm(w).AddSubImm? && Encode(AsAddSubImm(w)) == w
  {
  }

  // ---- shifted register ----

  lemma AddRegRn(i: ArmInstr)
    requires i.AddSubShifted?
    ensures GetBitRegion(Encode(i), 5, 9) == i.rn as bv32
  {
  }

  lemma AddRegImm6(i: ArmInstr)
    requires i.AddSubShifted?
    ensures GetBitRegion(Encode(i), 10, 15) == i.imm6 as bv32
  {
  }

  lemma AddRegRm(i: ArmInstr)
    requires i.AddSubShifted?
    ensures GetBitRegion(Encode(i), 16, 20) == i.rm as bv32
  {
  }

  lemma AddRegKind(i: ArmInstr)
    requires i.AddSubShifted?
    ensures GetBitRegion(Encode(i), 22, 23) == i.shift as bv32
  {
  }

  lemma AddRegOp(i: ArmInstr)
    requires i.AddSubShifted?
    ensures Flag(Encode(i), 30) == i.op
  {
  }

  lemma AddRegSf(i: ArmInstr)
    requires i.AddSubShifted?
    ensures Flag(Encode(i), 31) == i.sf
  {
  }

  lemma AddRegClass(i: ArmInstr)
    requires i.AddSubShifted?
    ensures Encode(i) & 0x1F200000 == 0x0B000000 && Encode(i) != 0
  {
  }

  /** The decoder accepts some words the architecture reserves: its check of the shift type compares an
      operation, which is never 3, with 3. */
  lemma AddRegAcceptedIff(i: ArmInstr)
    requires i.AddSubShifted?
    ensures Classify(Encode(i)) == ADDSUB_SHIFT
    ensures Accepts(Encode(i)) <==> Legal(i) || (i.shift == 3 && (i.sf || i.imm6 < 32))
  {
    AddRegClass(i);
    RegisterClasses(Encode(i));
    AddRegSf(i);
    AddRegImm6(i);
    Bit5(i.imm6);
  }

  lemma AddRegTree(i: ArmInstr)
    requires i.AddSubShifted?
    ensures AddSubShiftTree(Encode(i))
            == Node(SumOp(!i.op), RegisterLeaf(i.rn as nat),
                    ShiftedRegister(i.shift as bv32, i.rm as nat, i.imm6 as nat))
  {
    AddRegRn(i);
    AddRegImm6(i);
    AddRegRm(i);
    AddRegKind(i);
    AddRegOp(i);
    FiveBits(i.rn);
    FiveBits(i.rm);
    SixBits(i.imm6);
  }

  /** What the decoded record adds or subtracts: bit 30 the wrong way round. */
  function DecodedRegSum(i: ArmInstr, s: State): (r: Sum)
    requires i.AddSubShifted? && Legal(i) && StateOk(s)
    ensures |r.result| == Width(i.sf)
  {
    AddSub(!i.op, ReadX(s, RegNumber(i.rn), Width(i.sf)), ShiftedOperand(i, s))
  }

  function DecodedRegExec(i: ArmInstr, s: State): State
    requires i.AddSubShifted? && Legal(i) && StateOk(s)
  {
    var sum := DecodedRegSum(i, s);
    WriteX(if i.s then s.(flags := sum.flags) else s, RegNumber(i.rd), sum.result)
  }

  lemma AddRegExec(i: ArmInstr, s: State)
    requires i.AddSubShifted? && Legal(i) && StateOk(s)
    ensures Accepts(Encode(i)) && Describe(Encode(i)).WithTree? && Describe(Encode(i)).frame.body.Math?
    ensures ExecMath(Describe(Encode(i)).frame, Describe(Encode(i)).tree, s) == DecodedRegExec(i, s)
  {
    hide EvalTree, Val, ReadX, RegisterLeaf, ShiftedRegister, Encode, AddSubShiftTree, ExecMath, AddSub, Shift;
    AddSubShiftedFrame(i);
    AddRegAcceptedIff(i);
    assert Describe(Encode(i)).tree == AddSubShiftTree(Encode(i));
    AddRegTree(i);
    AmountBelowWidth(i.sf, i.imm6);
    ReadMeaning(s, RegNumber(i.rn), Width(i.sf));
    ShiftMeaning(s, i.shift, RegNumber(i.rm), i.imm6 as nat, Width(i.sf));
    SumExec(Describe(Encode(i)).frame, !i.op, RegisterLeaf(i.rn as nat),
            ShiftedRegister(i.shift as bv32, i.rm as nat, i.imm6 as nat), s,
            ReadX(s, RegNumber(i.rn), Width(i.sf)), ShiftedOperand(i, s));
  }

  /** No bit below the sign bit is set. */
  predicate OnlySignBit(b: Bits) {
    forall j :: 0 <= j < |b| - 1 ==> !b[j]
  }

  lemma NonzeroHasBit(x: Bits) returns (j: nat)
    requires Val(x) != 0
    ensures j < |x| && x[j]
  {
    if x[0] {
      j := 0;
    } else {
      var k := NonzeroHasBit(x[1..]);
      j := k + 1;
    }
  }

  lemma OwnNegativeIff(b: Bits)
    requires |b| > 0
    ensures Val(b) == 0 || 2 * Val(b) == Pow2(|b|) <==> OnlySignBit(b)
  {
    var low := b[..|b| - 1];
    TopBit(b);
    ValZeros(|low|);
    if Val(low) == 0 {
      ValInjective(low, Zeros(|low|));
      forall j | 0 <= j < |b| - 1
        ensures !b[j]
      {
        assert low[j] == b[j];
      }
    } else {
      var j := NonzeroHasBit(low);
      assert b[j];
    }
  }

  predicate RegResultRight(i: ArmInstr, s: State)
    requires i.AddSubShifted? && Legal(i) && StateOk(s)
  {
    DecodedRegSum(i, s).result == AddSubShiftedSum(i, s).result
  }

  lemma RegResultRightAt(i: ArmInstr, s: State)
    requires i.AddSubShifted? && Legal(i) && StateOk(s)
    ensures RegResultRight(i, s) <==> OnlySignBit(ShiftedOperand(i, s))
  {
    hide Pow2, Val, AddSub, ReadX, ShiftedOperand, OnlySignBit;
    OppositeResultIff(i.op, ReadX(s, RegNumber(i.rn), Width(i.sf)), ShiftedOperand(i, s));
    OwnNegativeIff(ShiftedOperand(i, s));
  }

  /** The second operand is 0 or the sign bit whatever the registers hold. */
  predicate SelfNegating(i: ArmInstr)
    requires i.AddSubShifted?
  {
    i.rm == 31 || (i.shift == 0 && i.imm6 as nat == Width(i.sf) - 1)
  }

  lemma ShiftOfZero(w: nat, kind: bv2, amount: nat)
    requires amount < w && kind != 3
    ensures OnlySignBit(Shift(Zeros(w), kind, amount))
  {
  }

  lemma ShiftToTop(x: Bits)
    requires |x| > 0
    ensures OnlySignBit(Shift(x, 0, |x| - 1))
  {
    assert Shift(x, 0, |x| - 1) == Zeros(|x| - 1) + x[..1];
  }

  lemma SelfNegatingOperand(i: ArmInstr, s: State)
    requires i.AddSubShifted? && Legal(i) && StateOk(s) && SelfNegating(i)
    ensures OnlySignBit(ShiftedOperand(i, s))
  {
    hide OnlySignBit, Shift;
    var w := Width(i.sf);
    RnIs31(i.rm);
    AmountBelowWidth(i.sf, i.imm6);
    if i.rm == 31 {
      ShiftOfZero(w, i.shift, i.imm6 as nat);
    } else {
      ShiftToTop(ReadX(s, i.rm as nat, w));
    }
  }

  /** A state in which some other bit of the second operand is set. */
  function OtherBitState(i: ArmInstr): (s: State)
    requires i.AddSubShifted?
    ensures StateOk(s)
  {
    Uniform(if i.shift == 0 || i.imm6 == 0 then OneBit(0) else OneBit(Width(i.sf) - 1), Zeros(64))
  }

  lemma LowBitShifted(x: Bits, kind: bv2, amount: nat)
    requires |x| > 1 && amount < |x| - 1 && x[0] && (kind == 0 || amount == 0)
    ensures Shift(x, kind, amount)[amount]
  {
    if amount == 0 {
      ShiftByZero(x, kind);
    }
  }

  lemma TopBitShifted(x: Bits, kind: bv2, amount: nat)
    requires 0 < amount < |x| && x[|x| - 1] && (kind == 1 || kind == 2)
    ensures Shift(x, kind, amount)[|x| - 1 - amount]
  {
  }

  lemma OtherBitSet(i: ArmInstr)
    requires i.AddSubShifted? && Legal(i) && !SelfNegating(i)
    ensures !OnlySignBit(ShiftedOperand(i, OtherBitState(i)))
  {
    hide Shift;
    var s, w, amount := OtherBitState(i), Width(i.sf), i.imm6 as nat;
    RnIs31(i.rm);
    SixBits(i.imm6);
    AmountBelowWidth(i.sf, i.imm6);
    var x := ReadX(s, i.rm as nat, w);
    if i.shift == 0 || i.imm6 == 0 {
      LowBitShifted(x, i.shift, amount);
      assert ShiftedOperand(i, s)[amount];
    } else {
      TopBitShifted(x, i.shift, amount);
      assert ShiftedOperand(i, s)[w - 1 - amount];
    }
  }

  /** The result is right in every state exactly when the second operand is its own negative in every
      state: the zero register, or a left shift that leaves only the sign bit. */
  lemma RegResultRightIff(i: ArmInstr)
    requires i.AddSubShifted? && Legal(i)
    ensures (forall s :: StateOk(s) ==> RegResultRight(i, s)) <==> SelfNegating(i)
  {
    hide RegResultRight, OnlySignBit, ShiftedOperand;
    if SelfNegating(i) {
      forall s | StateOk(s)
        ensures RegResultRight(i, s)
      {
        SelfNegatingOperand(i, s);
        RegResultRightAt(i, s);
      }
    } else {
      OtherBitSet(i);
      RegResultRightAt(i, OtherBitState(i));
    }
  }

  lemma DecodedRegFlagsWrong(i: ArmInstr, s: State)
    requires i.AddSubShifted? && Legal(i) && StateOk(s) && i.s
    ensures DecodedRegExec(i, s).flags != ExecAddSubShifted(i, s).flags
  {
    hide AddSub, ShiftedOperand;
    OppositeFlagsDiffer(i.op, ReadX(s, RegNumber(i.rn), Width(i.sf)), ShiftedOperand(i, s));
  }

  /** The guards of the departures: setting flags, and a second operand that is not its own negative
      where the result is kept. */
  predicate RegFaithful(i: ArmInstr)
    requires i.AddSubShifted?
  {
    !i.s && (i.rd == 31 || SelfNegating(i))
  }

  lemma RegExecRight(i: ArmInstr, s: State)
    requires i.AddSubShifted? && Legal(i) && StateOk(s) && !i.s
    ensures DecodedRegExec(i, s) == ExecAddSubShifted(i, s) <==> i.rd == 31 || RegResultRight(i, s)
  {
    hide AddSub, ShiftedOperand, ReadX;
    if i.rd == 31 {
      assert RegNumber(i.rd) == 31;
    } else {
      hide WriteX;
      ResultWritten(s, RegNumber(i.rd), DecodedRegSum(i, s).result, AddSubShiftedSum(i, s).result);
    }
  }

  lemma DecodedRegFaithfulIff(i: ArmInstr)
    requires i.AddSubShifted? && Legal(i)
    ensures (forall s :: StateOk(s) ==> DecodedRegExec(i, s) == ExecAddSubShifted(i, s)) <==> RegFaithful(i)
  {
    hide DecodedRegExec, ExecAddSubShifted, RegResultRight, SelfNegating;
    if i.s {
      DecodedRegFlagsWrong(i, Uniform(Zeros(64), Zeros(64)));
    } else {
      RegResultRightIff(i);
      forall s | StateOk(s)
        ensures DecodedRegExec(i, s) == ExecAddSubShifted(i, s) <==> i.rd == 31 || RegResultRight(i, s)
      {
        RegExecRight(i, s);
      }
    }
  }

  /** An add or subtract of a shifted register is decoded to its meaning in every state exactly when it
      sets no flags and drops its result, or its second operand is its own negative in every state. */
  lemma AddSubShiftedFaithfulIff(i: ArmInstr)
    requires i.AddSubShifted? && Legal(i)
    ensures Accepts(Encode(i)) && Describe(Encode(i)).WithTree? && Describe(Encode(i)).frame.body.Math?
    ensures (forall s :: StateOk(s) ==>
               ExecMath(Describe(Encode(i)).frame, Describe(Encode(i)).tree, s) == ExecAddSubShifted(i, s))
            <==> RegFaithful(i)
  {
    hide Encode, Describe, ExecMath, DecodedRegExec, ExecAddSubShifted, Accepts, Legal;
    AddRegExec(i, Uniform(Zeros(64), Zeros(64)));
    forall s | StateOk(s)
      ensures ExecMath(Describe(Encode(i)).frame, Describe(Encode(i)).tree, s) == DecodedRegExec(i, s)
    {
      AddRegExec(i, s);
    }
    DecodedRegFaithfulIff(i);
  }

  /** The record of a flag-setting add or subtract of a shifted register leaves wrong flags in every
      state. */
  lemma RegFlagsWrong(i: ArmInstr, s: State)
    requires i.AddSubShifted? && Legal(i) && StateOk(s) && i.s
    ensures Accepts(Encode(i)) && Describe(Encode(i)).WithTree? && Describe(Encode(i)).frame.body.Math?
    ensures ExecMath(Describe(Encode(i)).frame, Describe(Encode(i)).tree, s).flags != ExecAddSubShifted(i, s).flags
  {
    hide Encode, Describe, Accepts, ExecMath, ExecAddSubShifted, DecodedRegExec, Legal;
    AddRegExec(i, s);
    DecodedRegFlagsWrong(i, s);
  }

  lemma AddRegRd(i: ArmInstr)
    requires i.AddSubShifted?
    ensures GetBitRegion(Encode(i), 0, 4) == i.rd as bv32
  {
  }

  lemma AddRegS(i: ArmInstr)
    requires i.AddSubShifted?
    ensures Flag(Encode(i), 29) == i.s
  {
  }

  /** Destination, width, flag setting and the marks of touched flags are the architecture's. */
  lemma AddSubShiftedFrame(i: ArmInstr)
    requires i.AddSubShifted? && (Legal(i) || Accepts(Encode(i)))
    ensures Accepts(Encode(i)) && Describe(Encode(i)).WithTree?
    ensures var f := Describe(Encode(i)).frame;
            && f.body.Math? && f.body.dest == i.rd as nat < 32 && f.body.setFlags == i.s && f.is64 == i.sf
            && f.n == f.z == f.c == f.v == i.s
  {
    AddRegAcceptedIff(i);
    AddRegRd(i);
    AddRegS(i);
    AddRegSf(i);
    FiveBits(i.rd);
  }

  /** The instruction a word of the class encodes. */
  function AsAddSubShifted(w: bv32): ArmInstr {
    AddSubShifted(w >> 31 == 1, (w >> 30) & 1 == 1, (w >> 29) & 1 == 1, ((w >> 22) & 3) as bv2,
                  ((w >> 16) & 31) as bv5, ((w >> 10) & 63) as bv6, ((w >> 5) & 31) as bv5, (w & 31) as bv5)
  }

  lemma AddRegEncodesBack(w: bv32)
    requires w & 0x1F200000 == 0x0B000000
    ensures AsAddSubShifted(w).AddSubShifted? && Encode(AsAddSubShifted(w)) == w
  {
  }

  /** The whole of what an accepted word is decoded to; one with the reserved shift type is decoded like a
      rotation. */
  lemma AddRegDescribed(i: ArmInstr)
    requires i.AddSubShifted? && (Legal(i) || Accepts(Encode(i)))
    ensures Accepts(Encode(i))
    ensures Describe(Encode(i))
            == WithTree(Node(SumOp(!i.op), RegisterLeaf(i.rn as nat),
                             ShiftedRegister(i.shift as bv32, i.rm as nat, i.imm6 as nat)),
                        Instruction(Math(i.rd as nat, i.s, BLANK), i.sf, i.s, i.s, i.s, i.s, 0))
    ensures i.shift == 3 && i.imm6 != 0 ==>
              Describe(Encode(i)).tree.right == Node(ROR, RegisterLeaf(i.rm as nat), Leaf(Immediate(i.imm6 as nat)))
  {
    hide Encode, RegisterLeaf, AddSubShiftTree;
    AddRegAcceptedIff(i);
    AddRegTree(i);
    AddSubShiftedFrame(i);
    SixBits(i.imm6);
    KindIs(i.shift);
  }

  // ---- what register 31 means as a destination ----

  /** ADD or SUB of SP, Rn and #0, and of XZR, Rn and XZR: the first writes SP, the second drops its
      result. */
  function ToSp(sf: bool, op: bool, rn: bv5): ArmInstr {
    AddSubImm(sf, op, false, 0, 0, rn, 31)
  }

  function ToZero(sf: bool, op: bool, rn: bv5): ArmInstr {
    AddSubShifted(sf, op, false, 0, 31, 0, rn, 31)
  }

  lemma SameRecord(sf: bool, op: bool, rn: bv5)
    ensures Accepts(Encode(ToSp(sf, op, rn))) && Accepts(Encode(ToZero(sf, op, rn)))
    ensures Describe(Encode(ToSp(sf, op, rn))) == Describe(Encode(ToZero(sf, op, rn)))
  {
    hide Encode, Describe, Accepts;
    AddImmDescribed(ToSp(sf, op, rn));
    AddRegDescribed(ToZero(sf, op, rn));
    assert RegNumber(31) == 31;
  }

  /** The record does not say whether register 31 as a destination is SP or the zero register: two
      instructions that differ in it are decoded to the same record, so no way of executing records is
      right for both. */
  lemma NoReadingOfRegister31(sf: bool, op: bool, rn: bv5, exec: (Item, State) -> State)
    requires rn != 31
    ensures var i, j := ToSp(sf, op, rn), ToZero(sf, op, rn);
            && Legal(i) && Legal(j) && Accepts(Encode(i)) && Accepts(Encode(j))
            && !forall s :: StateOk(s) ==> exec(Describe(Encode(i)), s) == ExecAddSubImm(i, s)
                                           && exec(Describe(Encode(j)), s) == ExecAddSubShifted(j, s)
  {
    hide Encode, Describe, Accepts, ExecAddSubImm;
    var i, j := ToSp(sf, op, rn), ToZero(sf, op, rn);
    SameRecord(sf, op, rn);
    WritesSpBackIff(i);
    var s :| StateOk(s) && ExecAddSubImm(i, s) != s;
    assert RegNumber(j.rd) == 31;
    assert ExecAddSubShifted(j, s) == s;
  }
}
