/** The Arm architecture's own account of four instruction classes: encodings, and execution on bit
    strings as the pseudocode of DDI 0487 issue A.k writes it. */
module ArmReference {
  import opened Bits
  import opened Machine
  import ArmAsl

  datatype ArmInstr =
    | LogicalShifted(sf: bool, opc: bv2, shift: bv2, n: bool, rm: bv5, imm6: bv6, rn: bv5, rd: bv5)
    | LogicalImm(sf: bool, opc: bv2, n: bool, immr: bv6, imms: bv6, rn: bv5, rd: bv5)
    | AddSubImm(sf: bool, op: bool, s: bool, shift: bv2, imm12: bv12, rn: bv5, rd: bv5)
    | AddSubShifted(sf: bool, op: bool, s: bool, shift: bv2, rm: bv5, imm6: bv6, rn: bv5, rd: bv5)

  function Bit(b: bool): bv32 {
    if b then 1 else 0
  }

  /** The 32-bit word of an instruction, as the encoding tables of section C4 lay it out. */
  function Encode(i: ArmInstr): bv32 {
    match i
    case LogicalShifted(sf, opc, shift, n, rm, imm6, rn, rd) =>
      (Bit(sf) << 31) | ((opc as bv32) << 29) | 0x0A000000 | ((shift as bv32) << 22) | (Bit(n) << 21)
      | ((rm as bv32) << 16) | ((imm6 as bv32) << 10) | ((rn as bv32) << 5) | (rd as bv32)
    case LogicalImm(sf, opc, n, immr, imms, rn, rd) =>
      (Bit(sf) << 31) | ((opc as bv32) << 29) | 0x12000000 | (Bit(n) << 22)
      | ((immr as bv32) << 16) | ((imms as bv32) << 10) | ((rn as bv32) << 5) | (rd as bv32)
    case AddSubImm(sf, op, s, shift, imm12, rn, rd) =>
      (Bit(sf) << 31) | (Bit(op) << 30) | (Bit(s) << 29) | 0x11000000 | ((shift as bv32) << 22)
      | ((imm12 as bv32) << 10) | ((rn as bv32) << 5) | (rd as bv32)
    case AddSubShifted(sf, op, s, shift, rm, imm6, rn, rd) =>
      (Bit(sf) << 31) | (Bit(op) << 30) | (Bit(s) << 29) | 0x0B000000 | ((shift as bv32) << 22)
      | ((rm as bv32) << 16) | ((imm6 as bv32) << 10) | ((rn as bv32) << 5) | (rd as bv32)
  }

  // ---- shifts ----

  /** `Shift(x, type, amount)`, for amounts below the width. */
  function Shift(x: Bits, kind: bv2, amount: nat): (r: Bits)
    requires amount < |x|
    ensures |r| == |x|
  {
    if kind == 0 then Zeros(amount) + x[..|x| - amount]
    else if kind == 1 then x[amount..] + Zeros(amount)
    else if kind == 2 then x[amount..] + seq(amount, _ => x[|x| - 1])
    else ArmAsl.RotateRight(x, amount)
  }

  // ---- registers ----

  /** `X[n]` at a width of 32 or 64: register 31 reads as zero. */
  function ReadX(s: State, n: nat, w: nat): (r: Bits)
    requires StateOk(s) && n < 32 && w <= 64
    ensures |r| == w
  {
    if n == 31 then Zeros(w) else s.x[n][..w]
  }

  /** `X[n] = value`: the value is zero-extended, and register 31 discards it. */
  function WriteX(s: State, n: nat, value: Bits): State
    requires StateOk(s) && n < 32 && |value| <= 64
  {
    if n == 31 then s else s.(x := s.x[n := value + Zeros(64 - |value|)])
  }

  function WriteSP(s: State, value: Bits): State
    requires |value| <= 64
  {
    s.(sp := value + Zeros(64 - |value|))
  }

  /** `PSTATE.<N,Z,C,V> = result<datasize-1>:IsZeroBit(result):'00'`. */
  function LogicalFlags(s: State, result: Bits): State
    requires |result| > 0
  {
    s.(flags := Flags(result[|result| - 1], result == Zeros(|result|), false, false))
  }

  // ---- logical instructions ----

  function LogicalOp(opc: bv2): BitOp {
    if opc == 1 then Or else if opc == 2 then Xor else And
  }

  /** Where the architecture does not call the encoding unallocated. */
  predicate Legal(i: ArmInstr) {
    match i
    case LogicalShifted(sf, _, _, _, _, imm6, _, _) => sf || imm6 < 32
    case LogicalImm(sf, _, n, _, imms, _, _) =>
      (sf || !n) && !ArmAsl.Reserved(n, FromNat(imms as nat, 6))
    case AddSubImm(_, _, _, shift, _, _, _) => shift < 2
    case AddSubShifted(sf, _, _, shift, _, imm6, _, _) => shift != 3 && (sf || imm6 < 32)
  }

  function ShiftedOperand(i: ArmInstr, s: State): (r: Bits)
    requires i.LogicalShifted? || i.AddSubShifted?
    requires StateOk(s) && (i.sf || i.imm6 < 32)
    ensures |r| == Width(i.sf)
  {
    var m, amount := i.rm as nat, i.imm6 as nat;
    AmountBelowWidth(i.sf, i.imm6);
    Shift(ReadX(s, m, Width(i.sf)), i.shift, amount)
  }

  lemma AmountBelowWidth(sf: bool, imm6: bv6)
    requires sf || imm6 < 32
    ensures imm6 as nat < Width(sf)
  {
  }

  function LogicalShiftedResult(i: ArmInstr, s: State): (r: Bits)
    requires i.LogicalShifted? && Legal(i) && StateOk(s)
    ensures |r| == Width(i.sf)
  {
    var operand1 := ReadX(s, i.rn as nat, Width(i.sf));
    var shifted := ShiftedOperand(i, s);
    var operand2 := if i.n then Not(shifted) else shifted;
    Bitwise(LogicalOp(i.opc), operand1, operand2)
  }

  function ExecLogicalShifted(i: ArmInstr, s: State): State
    requires i.LogicalShifted? && Legal(i) && StateOk(s)
  {
    var result := LogicalShiftedResult(i, s);
    var flagged := if i.opc == 3 then LogicalFlags(s, result) else s;
    WriteX(flagged, i.rd as nat, result)
  }

  /** `DecodeBitMasks` at the width of the instruction. */
  function ImmediateMask(i: ArmInstr): Bits
    requires i.LogicalImm? && Legal(i)
  {
    var imms, immr := FromNat(i.imms as nat, 6), FromNat(i.immr as nat, 6);
    var len := ArmAsl.Len(i.n, imms);
    ArmAsl.ReservedSize(i.n, imms);
    LenWithoutN(i.n, imms);
    ArmAsl.MaskOf(if i.sf then 6 else 5, len, ArmAsl.FieldS(i.n, imms), ArmAsl.FieldR(i.n, imms, immr))
  }

  lemma LenWithoutN(n: bool, imms: Bits)
    ensures !n && ArmAsl.Len(n, imms) > 0 ==> ArmAsl.Len(n, imms) < |imms|
  {
    if !n {
      ArmAsl.HighestSetIs(Not(imms) + [n], |imms|);
    }
  }

  lemma MaskWidth(i: ArmInstr)
    requires i.LogicalImm? && Legal(i)
    ensures |ImmediateMask(i)| == Width(i.sf)
  {
    var imms, immr := FromNat(i.imms as nat, 6), FromNat(i.immr as nat, 6);
    ArmAsl.ReservedSize(i.n, imms);
    LenWithoutN(i.n, imms);
    Pow2Words();
    ArmAsl.MaskIsExt(if i.sf then 6 else 5, ArmAsl.Len(i.n, imms),
                     ArmAsl.FieldS(i.n, imms), ArmAsl.FieldR(i.n, imms, immr), 0);
  }

  function LogicalImmResult(i: ArmInstr, s: State): (r: Bits)
    requires i.LogicalImm? && Legal(i) && StateOk(s)
    ensures |r| == Width(i.sf)
  {
    MaskWidth(i);
    Bitwise(LogicalOp(i.opc), ReadX(s, i.rn as nat, Width(i.sf)), ImmediateMask(i))
  }

  /** Register 31 is the destination SP, except for the flag-setting form. */
  function ExecLogicalImm(i: ArmInstr, s: State): State
    requires i.LogicalImm? && Legal(i) && StateOk(s)
  {
    var result := LogicalImmResult(i, s);
    if i.opc == 3 then WriteX(LogicalFlags(s, result), i.rd as nat, result)
    else if i.rd == 31 then WriteSP(s, result)
    else WriteX(s, i.rd as nat, result)
  }

  // ---- add and subtract ----

  /** `SInt(x)`: the value of a bit string in two's complement. */
  function SInt(x: Bits): int
    requires |x| > 0
  {
    if x[|x| - 1] then Val(x) - Pow2(|x|) else Val(x)
  }

  datatype Sum = Sum(result: Bits, flags: Flags)

  /** Negative, zero, unsigned overflow and signed overflow. */
  function SumFlags(result: Bits, unsignedSum: nat, signedSum: int): Flags
    requires |result| > 0
  {
    Flags(result[|result| - 1], result == Zeros(|result|), Val(result) != unsignedSum, SInt(result) != signedSum)
  }

  function AddWithCarry(x: Bits, y: Bits, carry: bool): (r: Sum)
    requires |x| == |y| > 0
    ensures |r.result| == |x|
  {
    var unsignedSum := Val(x) + Val(y) + BitVal(carry);
    var signedSum := SInt(x) + SInt(y) + BitVal(carry);
    var result := FromNat(unsignedSum, |x|);
    Sum(result, SumFlags(result, unsignedSum, signedSum))
  }

  /** With op set the second operand is subtracted: its complement is added, and 1. */
  function AddSub(op: bool, a: Bits, b: Bits): (r: Sum)
    requires |a| == |b| > 0
    ensures |r.result| == |a|
  {
    if op then AddWithCarry(a, Not(b), true) else AddWithCarry(a, b, false)
  }

  /** The immediate, shifted left by 12 when the shift field is 01. */
  function ImmOperand(i: ArmInstr): (r: Bits)
    requires i.AddSubImm? && Legal(i)
    ensures |r| == Width(i.sf)
  {
    var w, imm12 := Width(i.sf), FromNat(i.imm12 as nat, 12);
    if i.shift == 1 then Zeros(12) + imm12 + Zeros(w - 24) else imm12 + Zeros(w - 12)
  }

  /** Register 31 is the source SP. */
  function AddSubImmSum(i: ArmInstr, s: State): (r: Sum)
    requires i.AddSubImm? && Legal(i) && StateOk(s)
    ensures |r.result| == Width(i.sf)
  {
    var w, n := Width(i.sf), i.rn as nat;
    AddSub(i.op, if n == 31 then s.sp[..w] else ReadX(s, n, w), ImmOperand(i))
  }

  function AddSubShiftedSum(i: ArmInstr, s: State): (r: Sum)
    requires i.AddSubShifted? && Legal(i) && StateOk(s)
    ensures |r.result| == Width(i.sf)
  {
    AddSub(i.op, ReadX(s, i.rn as nat, Width(i.sf)), ShiftedOperand(i, s))
  }

  /** Register 31 is the destination SP, except for the flag-setting form. */
  function ExecAddSubImm(i: ArmInstr, s: State): State
    requires i.AddSubImm? && Legal(i) && StateOk(s)
  {
    var sum, d := AddSubImmSum(i, s), i.rd as nat;
    if i.s then WriteX(s.(flags := sum.flags), d, sum.result)
    else if d == 31 then WriteSP(s, sum.result)
    else WriteX(s, d, sum.result)
  }

  function ExecAddSubShifted(i: ArmInstr, s: State): State
    requires i.AddSubShifted? && Legal(i) && StateOk(s)
  {
    var sum := AddSubShiftedSum(i, s);
    WriteX(if i.s then s.(flags := sum.flags) else s, i.rd as nat, sum.result)
  }
}
