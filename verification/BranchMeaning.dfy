/** Unconditional branches: what each architectural branch is decoded to. */
module BranchMeaning {
  import opened Iml
  import opened TreePool
  import opened ArmEncoding
  import opened Decode

  /** The unconditional branches, by their mnemonics. */
  datatype ArmBranch =
    | BR(rn: bv5) | BLR(rn: bv5) | RET(rn: bv5)
    | B(imm26: bv26) | BL(imm26: bv26)

  function EncodeBranch(i: ArmBranch): bv32 {
    match i
    case BR(rn) => 0xD61F0000 | ((rn as bv32) << 5)
    case BLR(rn) => 0xD63F0000 | ((rn as bv32) << 5)
    case RET(rn) => 0xD65F0000 | ((rn as bv32) << 5)
    case B(imm26) => 0x14000000 | (imm26 as bv32)
    case BL(imm26) => 0x94000000 | (imm26 as bv32)
  }

  /** Whether the architecture writes the return address to X30. */
  predicate Links(i: ArmBranch) {
    i.BLR? || i.BL?
  }

  /** The branch type of the architecture's `BranchTo`. */
  function TypeOf(i: ArmBranch): BranchHint {
    if Links(i) then CALL else if i.RET? then RETURN else JUMP
  }

  /** The target as the decoder stores it: a register, or the raw offset field. */
  function TargetOf(i: ArmBranch): Operand {
    match i
    case BR(rn) => Register(rn as nat)
    case BLR(rn) => Register(rn as nat)
    case RET(rn) => Register(rn as nat)
    case B(imm26) => Immediate(imm26 as nat)
    case BL(imm26) => Immediate(imm26 as nat)
  }

  lemma RegisterBranchFields(i: ArmBranch)
    requires !i.B? && !i.BL?
    ensures EncodeBranch(i) & 0xFE000000 == 0xD6000000
    ensures GetBitRegion(EncodeBranch(i), 5, 9) == i.rn as bv32
    ensures GetBitRegion(EncodeBranch(i), 21, 24) == if i.BR? then 0 else if i.BLR? then 1 else 2
  {
  }

  lemma BFields(imm26: bv26)
    ensures EncodeBranch(B(imm26)) & 0xFC000000 == 0x14000000
    ensures EncodeBranch(B(imm26)) & 0x03FFFFFF == imm26 as bv32
  {
  }

  lemma BLFields(imm26: bv26)
    ensures EncodeBranch(BL(imm26)) & 0xFC000000 == 0x94000000
    ensures EncodeBranch(BL(imm26)) & 0x03FFFFFF == imm26 as bv32
  {
  }

  lemma OffsetField(w: bv32)
    ensures GetBitRegion(w, 0, 25) == w & 0x03FFFFFF
  {
  }

  lemma LinkBit(w: bv32)
    ensures w & 0xFC000000 == 0x14000000 ==> !Flag(w, 31) && w & 0x7C000000 == 0x14000000
    ensures w & 0xFC000000 == 0x94000000 ==> Flag(w, 31) && w & 0x7C000000 == 0x14000000
  {
  }

  lemma ImmediateBranchFields(i: ArmBranch)
    requires i.B? || i.BL?
    ensures EncodeBranch(i) & 0x7C000000 == 0x14000000
    ensures Flag(EncodeBranch(i), 31) == i.BL?
  {
    hide EncodeBranch, Flag;
    LinkBit(EncodeBranch(i));
    match i
    case B(imm26) => BFields(imm26);
    case BL(imm26) => BLFields(imm26);
  }

  lemma OffsetOf(i: ArmBranch)
    requires i.B? || i.BL?
    ensures GetBitRegion(EncodeBranch(i), 0, 25) == i.imm26 as bv32
  {
    hide EncodeBranch, GetBitRegion;
    OffsetField(EncodeBranch(i));
    match i
    case B(imm26) => BFields(imm26);
    case BL(imm26) => BLFields(imm26);
  }

  lemma RegisterNumber(x: bv5)
    ensures (x as bv32) as nat == x as nat
  {
  }

  lemma OffsetNumber(x: bv26)
    ensures (x as bv32) as nat == x as nat
  {
  }

  lemma RegisterBranchDecoded(i: ArmBranch)
    requires !i.B? && !i.BL?
    ensures BranchToRegister(EncodeBranch(i)) == BranchInstruction(Links(i), TargetOf(i), TypeOf(i))
  {
    hide EncodeBranch, GetBitRegion;
    RegisterBranchFields(i);
    RegisterNumber(i.rn);
  }

  lemma ImmediateBranchDecoded(i: ArmBranch)
    requires i.B? || i.BL?
    ensures BranchToImmediate(EncodeBranch(i)) == BranchInstruction(Links(i), TargetOf(i), TypeOf(i))
  {
    hide EncodeBranch, GetBitRegion, Flag;
    ImmediateBranchFields(i);
    OffsetOf(i);
    OffsetNumber(i.imm26);
  }

  lemma BranchRouted(w: bv32)
    ensures w & 0x7C000000 == 0x14000000 ==> Classify(w) == BRANCH_IMM && w != 0
    ensures w & 0xFE000000 == 0xD6000000 ==> Classify(w) == BRANCH_REG && w != 0
  {
    hide InstrGetGroup, BranchGetGroup;
    BranchClasses(w);
  }

  /** Every unconditional branch is accepted and decoded to a record with the architecture's link
      behaviour and branch type, neither conditional nor 64-bit, with no flag touched and no successor, and
      pushes no expression. */
  lemma BranchDecoded(i: ArmBranch)
    ensures Accepts(EncodeBranch(i))
    ensures Describe(EncodeBranch(i))
            == Plain(Instruction(Branch(false, Links(i), TargetOf(i), TypeOf(i)), false, false, false, false, false, 0))
  {
    hide EncodeBranch, Classify, BranchToRegister, BranchToImmediate;
    BranchRouted(EncodeBranch(i));
    if i.B? || i.BL? {
      ImmediateBranchFields(i);
      ImmediateBranchDecoded(i);
    } else {
      RegisterBranchFields(i);
      RegisterBranchDecoded(i);
    }
  }

  lemma TargetRegister(w: bv32)
    ensures GetBitRegion(w, 21, 24) == (w >> 21) & 15 && GetBitRegion(w, 5, 9) == (w >> 5) & 31 < 32
  {
  }

  /** The other words of the register form. Exception return and debug restore keep register 0 as their
      target, the rest their register field; none links, and all are hinted as calls, since that is hint 0. */
  lemma OtherRegisterBranch(w: bv32)
    requires w & 0xFE000000 == 0xD6000000 && (w >> 21) & 15 > 2
    ensures Accepts(w)
    ensures var opc := (w >> 21) & 15;
            var target := if opc == 4 || opc == 5 then 0 else ((w >> 5) & 31) as nat;
            Describe(w) == Plain(Instruction(Branch(false, false, Register(target), CALL),
                                             false, false, false, false, false, 0))
  {
    hide GetBitRegion, Classify;
    BranchRouted(w);
    TargetRegister(w);
  }

  /** The words that no decoder handles: all that are not zero and not in one of the six classes. Their
      record is all zero. */
  lemma UndecodedIff(w: bv32)
    requires Accepts(w)
    ensures Describe(w) == Plain(Instruction(Math(0, false, Compound(ADD, false, false, 0, 0)),
                                             false, false, false, false, false, 0))
            <==> && w & 0x1F800000 != 0x12000000 && w & 0x1F000000 != 0x11000000
                 && w & 0x1F000000 != 0x0A000000 && w & 0x1F200000 != 0x0B000000
                 && w & 0x7C000000 != 0x14000000 && w & 0xFE000000 != 0xD6000000
  {
    hide InstrGetGroup, BranchGetGroup, DataImmGetGroup, DataRegGetGroup;
    ImmediateClasses(w);
    RegisterClasses(w);
    BranchClasses(w);
  }
}
