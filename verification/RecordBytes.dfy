/** The records byte by byte: offsets, tags and enumeration values as the declarations of iml.hxx give
    them to a 64-bit little-endian C++ compiler. `Layout` writes and reads records; nothing here uses what
    it reads them with. */
module RecordBytes {
  import opened Pools
  import opened Iml
  import opened Layout
  import opened TreePool
  import opened Records
  import opened ProgramLayout

  // ---- fields ----

  predicate BoolAt(b: seq<byte>, at: nat, value: bool)
    requires at < |b|
  {
    b[at] == if value then 1 else 0
  }

  function ByteAt(b: seq<byte>, at: nat): nat
    requires at < |b|
  {
    b[at]
  }

  function LittleEndian4(b: seq<byte>, at: nat): nat
    requires at + 4 <= |b|
  {
    ByteAt(b, at) + 0x100 * ByteAt(b, at + 1) + 0x1_0000 * ByteAt(b, at + 2) + 0x100_0000 * ByteAt(b, at + 3)
  }

  function LittleEndian8(b: seq<byte>, at: nat): nat
    requires at + 8 <= |b|
  {
    LittleEndian4(b, at) + 0x1_0000_0000 * LittleEndian4(b, at + 4)
  }

  predicate ZeroAt(b: seq<byte>, from: nat, to: nat)
    requires from <= to <= |b|
  {
    forall i :: from <= i < to ==> b[i] == 0
  }

  /** `math_op`, in the order of its declaration. */
  const OPERATIONS: seq<MathOp> :=
    [ADD, SUB, MUL, DIV, LSL, LSR, ASL, ASR, ROL, ROR, AND, OR, XOR, NEG,
     BITFIELD_MOV, BITFIELD_MOV_SIGNED, BITFIELD_MOV_UNSIGNED]

  /** `branch_hint`, in the order of its declaration. */
  const HINTS: seq<BranchHint> := [CALL, EXCEPTION_RETURN, DEBUG_EXIT, RETURN, JUMP, EXCEPTION, UNKNOWN]

  // ---- records ----

  /** `operand`: the tag, then the union at offset 8. */
  predicate OperandAt(b: seq<byte>, at: nat, o: Operand)
    requires at + 16 <= |b|
  {
    && ZeroAt(b, at + 1, at + 8)
    && match o
       case Immediate(imm) => b[at] == 0 && imm == LittleEndian8(b, at + 8)
       case Register(reg) => b[at] == 1 && b[at + 8] == reg && ZeroAt(b, at + 9, at + 16)
  }

  /** `expression`: is_value, then the union at offset 8. */
  predicate ExpressionBytes(b: seq<byte>, at: nat, e: Expression)
    requires at + 24 <= |b|
  {
    && ZeroAt(b, at + 1, at + 8)
    && match e
       case Value(o) => b[at] == 1 && OperandAt(b, at + 8, o)
       case Compound(op, signedOp, carry, left, right) =>
         && b[at] == 0 && b[at + 8] < 17 && OPERATIONS[b[at + 8]] == op
         && BoolAt(b, at + 9, signedOp) && BoolAt(b, at + 10, carry) && b[at + 11] == 0
         && left == LittleEndian4(b, at + 12) && right == LittleEndian4(b, at + 16) && ZeroAt(b, at + 20, at + 24)
  }

  /** `instruction`: the variant, the union at offset 8, the five flags in one byte at 40, next at 44. */
  predicate InstructionBytes(b: seq<byte>, at: nat, i: Instruction)
    requires at + 48 <= |b|
  {
    && ZeroAt(b, at + 1, at + 8)
    && (match i.body
        case Math(dest, setFlags, e) =>
          && b[at] == 0 && b[at + 8] == dest && BoolAt(b, at + 9, setFlags) && ZeroAt(b, at + 10, at + 16)
          && ExpressionBytes(b, at + 16, e)
        case Branch(conditional, link, target, hint) =>
          && b[at] == 2 && BoolAt(b, at + 8, conditional) && BoolAt(b, at + 9, link) && ZeroAt(b, at + 10, at + 16)
          && OperandAt(b, at + 16, target)
          && b[at + 32] < 7 && HINTS[b[at + 32]] == hint && ZeroAt(b, at + 33, at + 40))
    && b[at + 40] == (if i.is64 then 1 else 0) + (if i.n then 2 else 0) + (if i.z then 4 else 0)
                     + (if i.c then 8 else 0) + (if i.v then 16 else 0)
    && ZeroAt(b, at + 41, at + 44) && i.next == LittleEndian4(b, at + 44)
  }

  // ---- what is written ----

  lemma Digits(n: nat, k: nat)
    requires 0 < k
    ensures LE(n, k) == [n % 256] + LE(n / 256, k - 1)
  {
  }

  /** The first four bytes, and what is left. */
  lemma FourDigits(n: nat, k: nat)
    requires 4 <= k
    ensures n == LittleEndian4(LE(n, k), 0) + 0x1_0000_0000 * (n / 256 / 256 / 256 / 256)
    ensures LE(n, k)[4..] == LE(n / 256 / 256 / 256 / 256, k - 4)
  {
    var n1 := n / 256;
    var n2 := n1 / 256;
    var n3 := n2 / 256;
    Digits(n, k);
    Digits(n1, k - 1);
    Digits(n2, k - 2);
    Digits(n3, k - 3);
    assert LE(n, k) == [n % 256, n1 % 256, n2 % 256, n3 % 256] + LE(n3 / 256, k - 4);
  }

  lemma FourBytes(n: nat)
    requires n < Pow256(4)
    ensures n == LittleEndian4(LE(n, 4), 0)
  {
    assert Pow256(4) == 0x1_0000_0000;
    FourDigits(n, 4);
  }

  lemma EightBytes(n: nat)
    requires n < Pow256(8)
    ensures n == LittleEndian8(LE(n, 8), 0)
  {
    assert Pow256(8) == 0x1_0000_0000_0000_0000;
    var high := n / 256 / 256 / 256 / 256;
    FourDigits(n, 8);
    FourDigits(high, 4);
    assert high < 0x1_0000_0000;
    assert LittleEndian4(LE(n, 8), 4) == LittleEndian4(LE(n, 8)[4..], 0);
  }

  // ---- moving in a longer string ----

  lemma SameNumbers(b: seq<byte>, at: nat, c: seq<byte>)
    requires at + |c| <= |b| && b[at..at + |c|] == c
    ensures forall i {:trigger c[i]} :: 0 <= i < |c| ==> b[at + i] == c[i]
    ensures forall i {:trigger LittleEndian4(c, i)} :: 0 <= i && i + 4 <= |c| ==>
              LittleEndian4(b, at + i) == LittleEndian4(c, i)
    ensures forall i {:trigger LittleEndian8(c, i)} :: 0 <= i && i + 8 <= |c| ==>
              LittleEndian8(b, at + i) == LittleEndian8(c, i)
  {
    forall i | 0 <= i < |c|
      ensures b[at + i] == c[i]
    {
      assert b[at..at + |c|][i] == c[i];
    }
  }

  lemma OperandMoved(b: seq<byte>, at: nat, c: seq<byte>, from: nat, o: Operand)
    requires at + |c| <= |b| && b[at..at + |c|] == c && from + 16 <= |c| && OperandAt(c, from, o)
    ensures OperandAt(b, at + from, o)
  {
    hide LittleEndian8, LittleEndian4;
    SameNumbers(b, at, c);
    assert LittleEndian8(b, at + (from + 8)) == LittleEndian8(c, from + 8);
    assert forall i :: from <= i < from + 16 ==> b[at + i] == c[i];
    ZeroMoved(b, at, c, from + 1, from + 8);
    if o.Register? {
      ZeroMoved(b, at, c, from + 9, from + 16);
    }
  }

  lemma ZeroMoved(b: seq<byte>, at: nat, c: seq<byte>, from: nat, to: nat)
    requires at + |c| <= |b| && b[at..at + |c|] == c && from <= to <= |c| && ZeroAt(c, from, to)
    ensures ZeroAt(b, at + from, at + to)
  {
    forall i | at + from <= i < at + to
      ensures b[i] == 0
    {
      assert b[at..at + |c|][i - at] == c[i - at];
    }
  }

  lemma ExpressionMoved(b: seq<byte>, at: nat, c: seq<byte>, from: nat, e: Expression)
    requires at + |c| <= |b| && b[at..at + |c|] == c && from + 24 <= |c| && ExpressionBytes(c, from, e)
    ensures ExpressionBytes(b, at + from, e)
  {
    hide LittleEndian4, OperandAt, ZeroAt;
    SameNumbers(b, at, c);
    assert forall i :: from <= i < from + 24 ==> b[at + i] == c[i];
    ZeroMoved(b, at, c, from + 1, from + 8);
    match e
    case Value(o) => OperandMoved(b, at, c, from + 8, o);
    case Compound(_, _, _, _, _) =>
      assert LittleEndian4(b, at + (from + 12)) == LittleEndian4(c, from + 12);
      assert LittleEndian4(b, at + (from + 16)) == LittleEndian4(c, from + 16);
      ZeroMoved(b, at, c, from + 20, from + 24);
  }

  lemma InstructionMoved(b: seq<byte>, at: nat, c: seq<byte>, i: Instruction)
    requires at + |c| <= |b| && b[at..at + |c|] == c && 48 <= |c| && InstructionBytes(c, 0, i)
    ensures InstructionBytes(b, at, i)
  {
    hide LittleEndian4, OperandAt, ExpressionBytes, ZeroAt;
    SameNumbers(b, at, c);
    assert forall k :: 0 <= k < 48 ==> b[at + k] == c[k];
    assert LittleEndian4(b, at + 44) == LittleEndian4(c, 44);
    ZeroMoved(b, at, c, 1, 8);
    ZeroMoved(b, at, c, 10, 16);
    ZeroMoved(b, at, c, 41, 44);
    match i.body
    case Math(_, _, e) => ExpressionMoved(b, at, c, 16, e);
    case Branch(_, _, target, _) =>
      OperandMoved(b, at, c, 16, target);
      ZeroMoved(b, at, c, 33, 40);
  }

  // ---- the records as they are written ----

  lemma OperandWritten(o: Operand)
    requires OperandOk(o)
    ensures OperandAt(SerOperand(o), 0, o)
  {
    hide LittleEndian8, LE;
    var b := SerOperand(o);
    if o.Immediate? {
      EightBytes(o.imm);
      assert b[8..8 + 8] == LE(o.imm, 8);
      SameNumbers(b, 8, LE(o.imm, 8));
      assert LittleEndian8(b, 8 + 0) == LittleEndian8(LE(o.imm, 8), 0);
    }
  }

  lemma ExpressionWritten(e: Expression)
    requires ExpressionOk(e)
    ensures ExpressionBytes(SerExpression(e), 0, e)
  {
    hide LittleEndian4, LE, OperandAt, SerOperand;
    var b := SerExpression(e);
    match e
    case Value(o) =>
      OperandWritten(o);
      assert b[8..8 + 16] == SerOperand(o);
      OperandMoved(b, 8, SerOperand(o), 0, o);
    case Compound(_, _, _, left, right) =>
      FourBytes(left);
      FourBytes(right);
      assert b[12..12 + 4] == LE(left, 4) && b[16..16 + 4] == LE(right, 4);
      SameNumbers(b, 12, LE(left, 4));
      SameNumbers(b, 16, LE(right, 4));
      assert LittleEndian4(b, 12 + 0) == LittleEndian4(LE(left, 4), 0);
      assert LittleEndian4(b, 16 + 0) == LittleEndian4(LE(right, 4), 0);
  }

  lemma BodyWritten(i: Instruction)
    requires InstructionOk(i)
    ensures var b := SerInstruction(i);
            match i.body
            case Math(_, _, e) => ExpressionBytes(b, 16, e)
            case Branch(_, _, target, _) => OperandAt(b, 16, target)
  {
    hide OperandAt, SerOperand, ExpressionBytes, SerExpression, LE;
    var b := SerInstruction(i);
    match i.body
    case Math(_, _, e) =>
      ExpressionWritten(e);
      assert b[16..16 + 24] == SerExpression(e);
      ExpressionMoved(b, 16, SerExpression(e), 0, e);
    case Branch(_, _, target, _) =>
      OperandWritten(target);
      assert b[16..16 + 16] == SerOperand(target);
      OperandMoved(b, 16, SerOperand(target), 0, target);
  }

  lemma InstructionWritten(i: Instruction)
    requires InstructionOk(i)
    ensures InstructionBytes(SerInstruction(i), 0, i)
  {
    hide OperandAt, SerOperand, ExpressionBytes, SerExpression, LittleEndian4, LE;
    var b := SerInstruction(i);
    BodyWritten(i);
    FourBytes(i.next);
    assert b[44..44 + 4] == LE(i.next, 4);
    SameNumbers(b, 44, LE(i.next, 4));
    assert LittleEndian4(b, 44 + 0) == LittleEndian4(LE(i.next, 4), 0);
  }

  // ---- the final pool ----

  lemma InstructionSlice(items: seq<Item>, k: nat)
    requires ItemsOk(items) && k < |items|
    ensures InstrHandle(items, k) + 48 <= |Final(items)|
    ensures InstructionOk(EmissionOf(items, k).instr.(next := NextOf(items, k)))
    ensures Final(items)[InstrHandle(items, k)..InstrHandle(items, k) + 48]
            == SerInstruction(EmissionOf(items, k).instr.(next := NextOf(items, k)))
  {
    hide Final, EmissionOf, RecordsOf, SerAll, SerInstruction, NextOf;
    var e, next := EmissionOf(items, k), NextOf(items, k);
    var r, n := RecordsOf(e, next), HandleAt(0, |e.nodes|);
    RecordsStay(items, k);
    RecordsParts(e, next);
    SliceInSlice(Final(items), Base(items, k), r, n, |r|, SerInstruction(e.instr.(next := next)));
  }

  lemma NodeSlice(items: seq<Item>, k: nat, j: nat)
    requires ItemsOk(items) && k < |items| && j < |EmissionOf(items, k).nodes|
    ensures HandleAt(Base(items, k), j) + 24 <= InstrHandle(items, k) <= |Final(items)|
    ensures ExpressionOk(EmissionOf(items, k).nodes[j])
    ensures Final(items)[HandleAt(Base(items, k), j)..HandleAt(Base(items, k), j) + 24]
            == SerExpression(EmissionOf(items, k).nodes[j])
  {
    hide Final, EmissionOf, SerAll, SerExpression;
    var nodes := EmissionOf(items, k).nodes;
    NodesStay(items, k);
    SerAllAt(nodes, j);
    SliceInSlice(Final(items), Base(items, k), SerAll(nodes), HandleAt(0, j), HandleAt(0, j + 1),
                 SerExpression(nodes[j]));
  }

  /** The bytes of word k in the final pool: its expressions one after the other from where the records of
      the word before it end, then its instruction. */
  lemma FinalBytes(items: seq<Item>, k: nat)
    requires ItemsOk(items) && k < |items|
    ensures InstrHandle(items, k) + 48 <= |Final(items)|
    ensures InstructionBytes(Final(items), InstrHandle(items, k),
                             EmissionOf(items, k).instr.(next := NextOf(items, k)))
  {
    hide Final, EmissionOf, InstrHandle, SerInstruction, InstructionBytes;
    var i := EmissionOf(items, k).instr.(next := NextOf(items, k));
    InstructionSlice(items, k);
    InstructionWritten(i);
    InstructionMoved(Final(items), InstrHandle(items, k), SerInstruction(i), i);
  }

  lemma FinalNodeBytes(items: seq<Item>, k: nat, j: nat)
    requires ItemsOk(items) && k < |items| && j < |EmissionOf(items, k).nodes|
    ensures Base(items, k) + 24 * j + 24 <= |Final(items)|
    ensures ExpressionBytes(Final(items), Base(items, k) + 24 * j, EmissionOf(items, k).nodes[j])
  {
    hide Final, EmissionOf, SerExpression, ExpressionBytes;
    var e := EmissionOf(items, k).nodes[j];
    NodeSlice(items, k, j);
    ExpressionWritten(e);
    ExpressionMoved(Final(items), Base(items, k) + 24 * j, SerExpression(e), 0, e);
  }
}
