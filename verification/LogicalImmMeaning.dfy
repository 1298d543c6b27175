/** Logical (immediate): exactly when decoding preserves meaning. The decoder cuts the mask to 32 bits,
    which is right for 32-bit instructions and only sometimes for 64-bit ones, and register 31 as a
    destination is the zero register, where the architecture has SP. */
module LogicalImmMeaning {
  import opened Bits
  import opened Iml
  import opened Machine
  import opened ArmReference
  import opened ArmEncoding
  import opened Decode
  import opened LogicalMeaning
  import opened BitmaskTheorems
  import ArmAsl

  // ---- fields ----

  lemma ImmRd(i: ArmInstr)
    requires i.LogicalImm?
    ensures GetBitRegion(Encode(i), 0, 4) == i.rd as bv32
  {
  }

  lemma ImmRn(i: ArmInstr)
    requires i.LogicalImm?
    ensures GetBitRegion(Encode(i), 5, 9) == i.rn as bv32
  {
  }

  lemma ImmImms(i: ArmInstr)
    requires i.LogicalImm?
    ensures GetBitRegion(Encode(i), 10, 15) == i.imms as bv32
  {
  }

  lemma ImmImmr(i: ArmInstr)
    requires i.LogicalImm?
    ensures GetBitRegion(Encode(i), 16, 21) == i.immr as bv32
  {
  }

  lemma ImmN(i: ArmInstr)
    requires i.LogicalImm?
    ensures Flag(Encode(i), 22) == i.n
  {
  }

  lemma ImmOpc(i: ArmInstr)
    requires i.LogicalImm?
    ensures GetBitRegion(Encode(i), 29, 30) == i.opc as bv32
  {
  }

  lemma ImmSf(i: ArmInstr)
    requires i.LogicalImm?
    ensures Flag(Encode(i), 31) == i.sf
  {
  }

  lemma ImmClass(i: ArmInstr)
    requires i.LogicalImm?
    ensures Encode(i) & 0x1F800000 == 0x12000000
  {
  }

  lemma ImmNonzero(i: ArmInstr)
    requires i.LogicalImm?
    ensures Encode(i) != 0
  {
    ImmClass(i);
  }

  function AsLogicalImm(w: bv32): ArmInstr {
    LogicalImm(w >> 31 == 1, ((w >> 29) & 3) as bv2, (w >> 22) & 1 == 1,
               ((w >> 16) & 63) as bv6, ((w >> 10) & 63) as bv6, ((w >> 5) & 31) as bv5, (w & 31) as bv5)
  }

  lemma ImmEncodesBack(w: bv32)
    requires w & 0x1F800000 == 0x12000000
    ensures AsLogicalImm(w).LogicalImm? && Encode(AsLogicalImm(w)) == w
  {
  }

  lemma ImmRouted(i: ArmInstr)
    requires i.LogicalImm?
    ensures Classify(Encode(i)) == LOGICAL_IMM
  {
    ImmClass(i);
    ImmediateClasses(Encode(i));
  }

  function Imms(i: ArmInstr): (r: Bits)
    requires i.LogicalImm?
    ensures |r| == 6
  {
    FromNat(i.imms as nat, 6)
  }

  function Immr(i: ArmInstr): (r: Bits)
    requires i.LogicalImm?
    ensures |r| == 6
  {
    FromNat(i.immr as nat, 6)
  }

  lemma ImmFields(i: ArmInstr)
    requires i.LogicalImm?
    ensures Flag(Encode(i), 22) == i.n && ImmsBits(Encode(i)) == Imms(i) && ImmrBits(Encode(i)) == Immr(i)
  {
    ImmN(i);
    ImmImms(i);
    ImmImmr(i);
    SixBits(i.imms);
    SixBits(i.immr);
  }

  /** The decoder accepts a word of the class exactly when the architecture allocates it. */
  lemma ImmAcceptedIff(i: ArmInstr)
    requires i.LogicalImm?
    ensures Accepts(Encode(i)) <==> Legal(i)
  {
    ImmRouted(i);
    ImmNonzero(i);
    ImmSf(i);
    ImmFields(i);
    ArmAsl.AcceptsIffNotReserved(i.n, Imms(i));
  }

  // ---- the constant ----

  /** The 64-bit mask the decoder computes before it cuts it. */
  function FullMask(i: ArmInstr): Bits
    requires i.LogicalImm? && Legal(i)
  {
    ArmAsl.Mask(i.n, Imms(i), Immr(i))
  }

  lemma FullMaskIs(i: ArmInstr)
    requires i.LogicalImm? && Legal(i)
    ensures ArmAsl.Len(i.n, Imms(i)) <= 6 && ArmAsl.FieldS(i.n, Imms(i)) + 1 <= Pow2(ArmAsl.Len(i.n, Imms(i)))
    ensures FullMask(i) == ArmAsl.MaskOf(6, ArmAsl.Len(i.n, Imms(i)), ArmAsl.FieldS(i.n, Imms(i)),
                                         ArmAsl.FieldR(i.n, Imms(i), Immr(i)))
    ensures |FullMask(i)| == 64
  {
    ArmAsl.ReservedSize(i.n, Imms(i));
    Pow2Words();
    ArmAsl.MaskIsExt(6, ArmAsl.Len(i.n, Imms(i)), ArmAsl.FieldS(i.n, Imms(i)), ArmAsl.FieldR(i.n, Imms(i), Immr(i)), 0);
  }

  /** A mask whose period divides 2^m is the same mask at width 2^m, repeated. */
  lemma NarrowMask(m: nat, len: nat, s: nat, r: nat)
    requires len <= m && s + 1 <= Pow2(len)
    ensures Pow2(m) <= |ArmAsl.MaskOf(m + 1, len, s, r)|
    ensures ArmAsl.MaskOf(m + 1, len, s, r)[..Pow2(m)] == ArmAsl.MaskOf(m, len, s, r)
  {
    ArmAsl.MaskIsExt(m + 1, len, s, r, 0);
    ArmAsl.MaskIsExt(m, len, s, r, 0);
    forall k | 0 <= k < Pow2(m)
      ensures ArmAsl.MaskOf(m + 1, len, s, r)[k] == ArmAsl.MaskOf(m, len, s, r)[k]
    {
      ArmAsl.MaskIsExt(m + 1, len, s, r, k);
      ArmAsl.MaskIsExt(m, len, s, r, k);
    }
  }

  /** The constant the decoder puts in the tree, at the width of the instruction. */
  function CutMask(i: ArmInstr): (r: Bits)
    requires i.LogicalImm? && Legal(i)
    ensures |r| == Width(i.sf)
  {
    FullMaskIs(i);
    if i.sf then FullMask(i)[..32] + Zeros(32) else FullMask(i)[..32]
  }

  /** For a 32-bit instruction the truncated constant is the architecture's 32-bit mask. */
  lemma CutMask32(i: ArmInstr)
    requires i.LogicalImm? && Legal(i) && !i.sf
    ensures CutMask(i) == ImmediateMask(i)
  {
    FullMaskIs(i);
    LenWithoutN(i.n, Imms(i));
    Pow2Words();
    NarrowMask(5, ArmAsl.Len(i.n, Imms(i)), ArmAsl.FieldS(i.n, Imms(i)), ArmAsl.FieldR(i.n, Imms(i), Immr(i)));
  }

  lemma Mask64(i: ArmInstr)
    requires i.LogicalImm? && Legal(i) && i.sf
    ensures ImmediateMask(i) == FullMask(i)
  {
    FullMaskIs(i);
  }

  lemma CutValue(i: ArmInstr)
    requires i.LogicalImm? && Legal(i)
    ensures CutToU32(FullMask(i)) == Val(CutMask(i))
  {
    FullMaskIs(i);
    if i.sf {
      ValZeroExtend(FullMask(i)[..32], 32);
    }
  }

  // ---- execution ----

  function LogicalImmediateTree(i: ArmInstr): Tree
    requires i.LogicalImm? && Legal(i)
  {
    Node(BitwiseOp(i.opc as bv32), RegisterLeaf(i.rn as nat), Leaf(Immediate(Val(CutMask(i)))))
  }

  lemma ImmDecoded(i: ArmInstr)
    requires i.LogicalImm? && Legal(i)
    ensures !ArmAsl.Reserved(Flag(Encode(i), 22), ImmsBits(Encode(i)))
    ensures LogicalImmTree(Encode(i)) == LogicalImmediateTree(i)
  {
    ImmFields(i);
    ImmOpc(i);
    ImmRn(i);
    FiveBits(i.rn);
    CutValue(i);
  }

  /** What the decoded instruction computes. */
  function DecodedResult(i: ArmInstr, s: State): (r: Bits)
    requires i.LogicalImm? && Legal(i) && StateOk(s)
    ensures |r| == Width(i.sf)
  {
    Bitwise(LogicalOp(i.opc), ReadX(s, i.rn as nat, Width(i.sf)), CutMask(i))
  }

  function DecodedExec(i: ArmInstr, s: State): State
    requires i.LogicalImm? && Legal(i) && StateOk(s)
  {
    var r := DecodedResult(i, s);
    WriteX(if i.opc == 3 then LogicalFlags(s, r) else s, i.rd as nat, r)
  }

  lemma ImmValue(i: ArmInstr, s: State)
    requires i.LogicalImm? && Legal(i) && StateOk(s)
    ensures EvalTree(LogicalImmediateTree(i), s, Width(i.sf)) == Val(DecodedResult(i, s))
  {
    ValBound(CutMask(i));
    ConstantMeaning(s, Val(CutMask(i)), Width(i.sf));
    OpIs(i.opc);
    FiveBits(i.rn);
    RootMeaning(s, LogicalOp(i.opc), i.rn as nat, Leaf(Immediate(Val(CutMask(i)))), CutMask(i), Width(i.sf));
  }

  lemma ImmHeader(i: ArmInstr, e: Expression)
    requires i.LogicalImm?
    ensures var m := MathInstruction(Encode(i), SetsFlags(Encode(i)), SetsFlags(Encode(i)), e);
            m.body.dest == i.rd as nat < 32 && m.body.setFlags == (i.opc == 3) && m.is64 == i.sf
  {
    ImmRouted(i);
    ImmRd(i);
    ImmOpc(i);
    ImmSf(i);
    FiveBits(i.rd);
    OpcIsThree(i.opc);
  }

  lemma ImmEmission(i: ArmInstr)
    requires i.LogicalImm? && Legal(i) && Accepts(Encode(i))
    ensures Describe(Encode(i)).WithTree? && Describe(Encode(i)).tree == LogicalImmediateTree(i)
    ensures var m := Describe(Encode(i)).frame;
            m.body.Math? && m.body.dest == i.rd as nat && m.body.setFlags == (i.opc == 3) && m.is64 == i.sf
  {
    ImmRouted(i);
    ImmDecoded(i);
    ImmHeader(i, Describe(Encode(i)).frame.body.expr);
  }

  /** The record but for its tree, field by field: the flags are set, and all four marked as touched, for
      ANDS only. */
  lemma LogicalImmFrame(i: ArmInstr)
    requires i.LogicalImm? && Legal(i)
    ensures Accepts(Encode(i)) && Describe(Encode(i)).WithTree?
    ensures var flags := i.opc == 3;
            Describe(Encode(i)).frame
            == Instruction(Math(i.rd as nat, flags, Compound(ADD, false, false, 0, 0)),
                           i.sf, flags, flags, flags, flags, 0)
  {
    ImmAcceptedIff(i);
    ImmRouted(i);
    ImmHeader(i, BLANK);
    ImmOpc(i);
    OpcIsThree(i.opc);
  }

  lemma ImmExec(i: ArmInstr, s: State)
    requires i.LogicalImm? && Legal(i) && StateOk(s)
    ensures Accepts(Encode(i)) && Describe(Encode(i)).WithTree?
    ensures ExecMath(Describe(Encode(i)).frame, Describe(Encode(i)).tree, s) == DecodedExec(i, s)
  {
    hide Encode, Accepts, Describe, ExecMath, EvalTree, Val, CutMask, RegisterLeaf, Legal;
    ImmAcceptedIff(i);
    OpIs(i.opc);
    ImmEmission(i);
    ImmValue(i, s);
    FiveBits(i.rd);
    ExecMeaning(Describe(Encode(i)).frame, LogicalImmediateTree(i), s, DecodedResult(i, s), i.rd as nat);
  }

  // ---- when the decoding is faithful ----

  /** The 64-bit mask has no bit above bit 31: a single run of imms + 1 ones, not rotated across the
      top, that ends below bit 32. */
  predicate FitsU32(i: ArmInstr)
    requires i.LogicalImm?
  {
    i.n && (64 - i.immr as nat) % 64 + i.imms as nat <= 31
  }

  /** The guards of the two departures: SP as a destination, and a mask that loses its top half in
      an operation that would have used it. */
  predicate Faithful(i: ArmInstr)
    requires i.LogicalImm?
  {
    && (i.opc == 3 || i.rd != 31)
    && (!i.sf || FitsU32(i) || (LogicalOp(i.opc) == And && i.rn == 31))
  }

  predicate TopClear(mask: Bits)
    requires |mask| == 64
  {
    forall k :: 32 <= k < 64 ==> !mask[k]
  }

  lemma LenIsSix(n: bool, imms: Bits)
    requires |imms| == 6
    ensures ArmAsl.Len(n, imms) == 6 <==> n
  {
    ArmAsl.HighestSetIs(Not(imms) + [n], 6);
  }

  /** With N set the fields are imms and immr themselves. */
  lemma WideFields(i: ArmInstr)
    requires i.LogicalImm? && Legal(i) && i.n
    ensures ArmAsl.Len(i.n, Imms(i)) == 6
    ensures ArmAsl.FieldS(i.n, Imms(i)) == i.imms as nat < 64
    ensures ArmAsl.FieldR(i.n, Imms(i), Immr(i)) == i.immr as nat < 64
  {
    LenIsSix(i.n, Imms(i));
    ArmAsl.LevelsAnd(Imms(i), 6);
    ArmAsl.LevelsAnd(Immr(i), 6);
    assert Imms(i)[..6] == Imms(i) && Immr(i)[..6] == Immr(i);
    FromNatSix(i.imms);
    FromNatSix(i.immr);
  }

  lemma FromNatSix(x: bv6)
    ensures Val(FromNat(x as nat, 6)) == x as nat < 64
  {
    SixBits(x);
    Pow2Words();
    FromNatSmall(x as nat, 6);
  }

  /** A run of s + 1 ones rotated right by r in 64 bits stays below bit 32 exactly when it does not
      start above or reach bit 32. */
  lemma RunBelow32(s: nat, r: nat)
    requires s < 64 && r < 64
    ensures (forall k {:trigger RunBit(64, s, r, k)} :: 32 <= k < 64 ==> !RunBit(64, s, r, k))
            <==> (64 - r) % 64 + s <= 31
  {
    var start := (64 - r) % 64;
    forall k | 32 <= k < 64
      ensures RunBit(64, s, r, k) <==> if k < start then k + r <= s else k - start <= s
    {
    }
    var k := if start >= 32 then start else 32;
    assert RunBit(64, s, r, k) <==> k - start <= s;
  }

  lemma MaskIsRun(i: ArmInstr, size: nat, s: nat, r: nat, k: nat)
    requires i.LogicalImm? && Legal(i) && k < 64
    requires size == Pow2(ArmAsl.Len(i.n, Imms(i)))
    requires s == ArmAsl.FieldS(i.n, Imms(i)) && r == ArmAsl.FieldR(i.n, Imms(i), Immr(i))
    ensures |FullMask(i)| == 64
    ensures FullMask(i)[k] <==> RunBit(size, s, r, k)
  {
    hide ArmAsl.Mask, ArmAsl.Len, ArmAsl.FieldS, ArmAsl.FieldR;
    Pow2Words();
    ArmAsl.MaskBit(i.n, Imms(i), Immr(i), ArmAsl.Len(i.n, Imms(i)), s, r, k);
  }

  lemma TopClearWide(i: ArmInstr)
    requires i.LogicalImm? && Legal(i) && i.n
    ensures |FullMask(i)| == 64 && (TopClear(FullMask(i)) <==> FitsU32(i))
  {
    WideFields(i);
    Pow2Words();
    var s, r := i.imms as nat, i.immr as nat;
    FullMaskIs(i);
    forall k | 0 <= k < 64
      ensures FullMask(i)[k] <==> RunBit(64, s, r, k)
    {
      MaskIsRun(i, 64, s, r, k);
    }
    RunBelow32(s, r);
  }

  /** A shorter element is repeated into the top half. */
  lemma NarrowRunReachesTop(len: nat, s: nat, r: nat) returns (k: nat)
    requires len < 6 && r < Pow2(len)
    ensures 32 <= k < 64 && RunBit(Pow2(len), s, r, k)
  {
    Pow2Words();
    Pow2Monotone(len, 5);
    k := if r == 0 then 32 else 64 - r;
    if r == 0 {
      Pow2Add(len, 5 - len);
      DivModUnique(32, Pow2(len), Pow2(5 - len), 0);
    } else {
      Pow2Add(len, 6 - len);
      DivModUnique(64, Pow2(len), Pow2(6 - len), 0);
    }
  }

  lemma TopClearIff(i: ArmInstr)
    requires i.LogicalImm? && Legal(i)
    ensures |FullMask(i)| == 64 && (TopClear(FullMask(i)) <==> FitsU32(i))
  {
    FullMaskIs(i);
    if i.n {
      TopClearWide(i);
    } else {
      LenIsSix(i.n, Imms(i));
      FieldsInRange(i.n, Imms(i), Immr(i));
      var len, s, r := ArmAsl.Len(i.n, Imms(i)), ArmAsl.FieldS(i.n, Imms(i)), ArmAsl.FieldR(i.n, Imms(i), Immr(i));
      var k := NarrowRunReachesTop(len, s, r);
      MaskIsRun(i, Pow2(len), s, r, k);
    }
  }

  lemma SameResult(i: ArmInstr, s: State)
    requires i.LogicalImm? && Legal(i) && StateOk(s)
    requires !i.sf || FitsU32(i) || (LogicalOp(i.opc) == And && i.rn == 31)
    ensures DecodedResult(i, s) == LogicalImmResult(i, s)
  {
    MaskWidth(i);
    if !i.sf {
      CutMask32(i);
    } else {
      Mask64(i);
      FullMaskIs(i);
      TopClearIff(i);
      if FitsU32(i) {
        assert CutMask(i) == FullMask(i);
      } else {
        FiveBits(i.rn);
        assert DecodedResult(i, s) == Zeros(64);
        assert LogicalImmResult(i, s) == Zeros(64);
      }
    }
  }

  /** A state whose general registers all hold x, and whose SP holds y. */
  function Uniform(x: Bits64, y: Bits64): (s: State)
    ensures StateOk(s)
  {
    State(seq(31, _ => x), y, Flags(false, false, false, false))
  }

  function OneBit(j: nat): (x: Bits64)
    requires j < 64
  {
    seq(64, k => k == j)
  }

  /** A state in which a lost top half shows: a register holding one lost bit for AND, and zero for
      OR and XOR. */
  function LostBitState(i: ArmInstr, j: nat): (s: State)
    requires i.LogicalImm? && j < 64
    ensures StateOk(s)
  {
    Uniform(if LogicalOp(i.opc) == And then OneBit(j) else Zeros(64), Zeros(64))
  }

  lemma LostBitShows(i: ArmInstr, j: nat)
    requires i.LogicalImm? && Legal(i) && i.sf && 32 <= j < 64 && FullMaskBit(i, j)
    requires !(LogicalOp(i.opc) == And && i.rn == 31)
    ensures var s := LostBitState(i, j);
            DecodedResult(i, s) != LogicalImmResult(i, s)
    ensures i.opc == 3 ==> DecodedResult(i, LostBitState(i, j)) == Zeros(64) != LogicalImmResult(i, LostBitState(i, j))
  {
    var s := LostBitState(i, j);
    Mask64(i);
    MaskWidth(i);
    FullMaskIs(i);
    RnIs31(i.rn);
    var x := ReadX(s, i.rn as nat, 64);
    assert LogicalImmResult(i, s)[j] == Apply(LogicalOp(i.opc), x[j], true);
    assert DecodedResult(i, s)[j] == Apply(LogicalOp(i.opc), x[j], false);
    if i.opc == 3 {
      assert DecodedResult(i, s) == Zeros(64);
    }
  }

  predicate FullMaskBit(i: ArmInstr, j: nat)
    requires i.LogicalImm? && Legal(i) && j < 64
  {
    FullMaskIs(i);
    FullMask(i)[j]
  }

  lemma RnIs31(x: bv5)
    ensures x as nat == 31 <==> x == 31
    ensures x as nat < 32
  {
  }

  lemma LostBitObserved(i: ArmInstr, j: nat)
    requires i.LogicalImm? && Legal(i) && i.sf && 32 <= j < 64 && FullMaskBit(i, j)
    requires !(LogicalOp(i.opc) == And && i.rn == 31) && (i.opc == 3 || i.rd != 31)
    ensures DecodedExec(i, LostBitState(i, j)) != ExecLogicalImm(i, LostBitState(i, j))
  {
    var s := LostBitState(i, j);
    LostBitShows(i, j);
    RnIs31(i.rd);
    var a, b := DecodedResult(i, s), LogicalImmResult(i, s);
    if i.opc == 3 {
      assert DecodedExec(i, s).flags.z && !ExecLogicalImm(i, s).flags.z;
    } else {
      var d := i.rd as nat;
      assert DecodedExec(i, s).x[d] == a + Zeros(0) && ExecLogicalImm(i, s).x[d] == b + Zeros(0);
      assert a + Zeros(0) == a && b + Zeros(0) == b;
    }
  }

  /** With SP as the destination the result is lost; it shows unless SP happened to hold it already. */
  lemma LostDestinationObserved(i: ArmInstr)
    requires i.LogicalImm? && Legal(i) && i.opc != 3 && i.rd == 31
    ensures exists s :: StateOk(s) && DecodedExec(i, s) != ExecLogicalImm(i, s)
  {
    RnIs31(i.rd);
    var s := Uniform(Zeros(64), Zeros(64));
    var t := Uniform(Zeros(64), Ones(64));
    assert LogicalImmResult(i, s) == LogicalImmResult(i, t);
    var r := LogicalImmResult(i, s) + Zeros(64 - Width(i.sf));
    assert ExecLogicalImm(i, s).sp == r && ExecLogicalImm(i, t).sp == r;
    assert Zeros(64)[0] != Ones(64)[0];
    assert DecodedExec(i, s).sp == Zeros(64) && DecodedExec(i, t).sp == Ones(64);
    assert DecodedExec(i, s) != ExecLogicalImm(i, s) || DecodedExec(i, t) != ExecLogicalImm(i, t);
  }

  /** A logical (immediate) instruction is decoded to its meaning in every state exactly when its
      destination is not SP and, at 64 bits, its mask fits in 32 bits or the operation is AND with the
      zero register. All 32-bit forms but those writing SP are faithful. */
  lemma LogicalImmFaithfulIff(i: ArmInstr)
    requires i.LogicalImm? && Legal(i)
    ensures Accepts(Encode(i)) && Describe(Encode(i)).WithTree? && Describe(Encode(i)).frame.body.Math?
    ensures (forall s :: StateOk(s) ==>
               ExecMath(Describe(Encode(i)).frame, Describe(Encode(i)).tree, s) == ExecLogicalImm(i, s))
            <==> Faithful(i)
  {
    ImmAcceptedIff(i);
    ImmEmission(i);
    forall s | StateOk(s)
      ensures ExecMath(Describe(Encode(i)).frame, Describe(Encode(i)).tree, s) == DecodedExec(i, s)
    {
      ImmExec(i, s);
    }
    DecodedFaithfulIff(i);
  }

  lemma DecodedFaithfulIff(i: ArmInstr)
    requires i.LogicalImm? && Legal(i)
    ensures (forall s :: StateOk(s) ==> DecodedExec(i, s) == ExecLogicalImm(i, s)) <==> Faithful(i)
  {
    if Faithful(i) {
      forall s | StateOk(s)
        ensures DecodedExec(i, s) == ExecLogicalImm(i, s)
      {
        SameResult(i, s);
        RnIs31(i.rd);
      }
    } else if i.opc != 3 && i.rd == 31 {
      LostDestinationObserved(i);
    } else {
      TopClearIff(i);
      FullMaskIs(i);
      var j :| 32 <= j < 64 && FullMask(i)[j];
      assert FullMaskBit(i, j);
      LostBitObserved(i, j);
    }
  }

  /** The same for words: every accepted word of the class encodes a legal instruction, and is decoded
      to its meaning when that instruction is faithful. */
  lemma LogicalImmWordFaithful(w: bv32, s: State)
    requires Accepts(w) && Classify(w) == LOGICAL_IMM && Faithful(AsLogicalImm(w)) && StateOk(s)
    ensures var i := AsLogicalImm(w);
            && Legal(i) && Encode(i) == w && Describe(w).WithTree? && Describe(w).frame.body.Math?
            && ExecMath(Describe(w).frame, Describe(w).tree, s) == ExecLogicalImm(i, s)
  {
    hide Describe, Accepts, Legal, Encode, Faithful, ExecMath, ExecLogicalImm, AsLogicalImm;
    ImmediateClasses(w);
    ImmEncodesBack(w);
    ImmAcceptedIff(AsLogicalImm(w));
    LogicalImmFaithfulIff(AsLogicalImm(w));
  }

  /** AND X1, X2, #0xFFFFFFFFFFFFFFFE, the instruction that test/base.s calls the largest possible
      bitmask, is one the decoder gets wrong. */
  lemma LargestMaskUnfaithful()
    ensures var i := LogicalImm(true, 0, true, 63, 62, 2, 1);
            && Legal(i) && Encode(i) == 0x927FF841 && Accepts(Encode(i))
            && Describe(Encode(i)).WithTree? && Describe(Encode(i)).frame.body.Math?
            && exists s :: StateOk(s) && ExecMath(Describe(Encode(i)).frame, Describe(Encode(i)).tree, s)
                                         != ExecLogicalImm(i, s)
  {
    var i := LogicalImm(true, 0, true, 63, 62, 2, 1);
    hide Describe, Accepts, ExecMath, ExecLogicalImm, Legal;
    LargestMaskLegal(i);
    LogicalImmFaithfulIff(i);
  }

  lemma LargestMaskLegal(i: ArmInstr)
    requires i == LogicalImm(true, 0, true, 63, 62, 2, 1)
    ensures Legal(i)
  {
    LenIsSix(true, Imms(i));
    ArmAsl.LevelsAnd(Imms(i), 6);
    assert Imms(i)[..6] == Imms(i);
    FromNatSix(i.imms);
    Pow2Words();
    ArmAsl.ReservedSize(true, Imms(i));
  }
}
