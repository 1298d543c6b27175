/** Field extraction and the mask/pattern dispatch over 32-bit instruction words. */
module ArmEncoding {

  /** `GET_BIT_REGION` on a u32. */
  function GetBitRegion(v: bv32, low: nat, high: nat): bv32
    requires low <= high < 32
  {
    (v & (0xFFFFFFFF >> (31 - high))) >> low
  }

  /** `GET_SINGLE_BIT` on a u32. */
  function GetSingleBit(v: bv32, bit: nat): bv32
    requires bit < 32
  {
    (v >> bit) & 1
  }

  datatype Entry<G> = Entry(mask: bv32, pattern: bv32, group: G) {
    predicate Matches(op: bv32) {
      op & mask == pattern
    }
  }

  function FirstMatch<G>(table: seq<Entry<G>>, op: bv32, i: nat, none: G): G
    requires i <= |table|
    decreases |table| - i
  {
    if i == |table| then none
    else if table[i].Matches(op) then table[i].group
    else FirstMatch(table, op, i + 1, none)
  }

  datatype DoubleEntry<G> = DoubleEntry(mask1: bv32, pattern1: bv32, mask2: bv32, pattern2: bv32, group: G) {
    predicate Matches(op0: bv32, op1: bv32) {
      op0 & mask1 == pattern1 && op1 & mask2 == pattern2
    }
  }

  function FirstDoubleMatch<G>(table: seq<DoubleEntry<G>>, op0: bv32, op1: bv32, i: nat, none: G): G
    requires i <= |table|
    decreases |table| - i
  {
    if i == |table| then none
    else if table[i].Matches(op0, op1) then table[i].group
    else FirstDoubleMatch(table, op0, op1, i + 1, none)
  }

  datatype L1 = L1_UNALLOCATED | L1_DATA_IMM | L1_BRANCH | L1_LD_STR | L1_DATA_REG | L1_DATA_SIMD

  const TOP_TABLE: seq<Entry<L1>> := [
    Entry(0xE, 0x8, L1_DATA_IMM),
    Entry(0xE, 0xA, L1_BRANCH),
    Entry(0x5, 0x4, L1_LD_STR),
    Entry(0x7, 0x5, L1_DATA_REG),
    Entry(0xF, 0x7, L1_DATA_SIMD),
    Entry(0xF, 0xF, L1_DATA_SIMD)]

  function InstrGetGroup(instr: bv32): L1 {
    FirstMatch(TOP_TABLE, GetBitRegion(instr, 25, 29), 0, L1_UNALLOCATED)
  }

  datatype DataImm =
    | IMM_UNALLOCATED | IMM_PC_REL_ADDR | IMM_ADDSUB_IMM | IMM_LOGICAL_IMM | IMM_MOV_WIDE | IMM_BITFIELD | IMM_EXTRACT

  const DATA_IMM_TABLE: seq<Entry<DataImm>> := [
    Entry(0x6, 0x0, IMM_PC_REL_ADDR),
    Entry(0x6, 0x2, IMM_ADDSUB_IMM),
    Entry(0x7, 0x4, IMM_LOGICAL_IMM),
    Entry(0x7, 0x5, IMM_MOV_WIDE),
    Entry(0x7, 0x6, IMM_BITFIELD),
    Entry(0x7, 0x7, IMM_EXTRACT)]

  function DataImmGetGroup(instr: bv32): DataImm {
    FirstMatch(DATA_IMM_TABLE, GetBitRegion(instr, 23, 25), 0, IMM_UNALLOCATED)
  }

  datatype BranchGroup =
    | BRANCH_CONDITIONAL | BRANCH_EXCEPTION | BRANCH_SYSTEM | BRANCH_UNCONDITIONAL_REG
    | BRANCH_UNCONDITIONAL_IMM | BRANCH_COMPARE | BRANCH_TEST | BRANCH_UNALLOCATED

  const BRANCH_TABLE: seq<DoubleEntry<BranchGroup>> := [
    DoubleEntry(0x7, 0x2, 0x8, 0x0, BRANCH_CONDITIONAL),
    DoubleEntry(0x7, 0x6, 0xC, 0x0, BRANCH_EXCEPTION),
    DoubleEntry(0x7, 0x6, 0xF, 0x4, BRANCH_SYSTEM),
    DoubleEntry(0x7, 0x6, 0x8, 0x8, BRANCH_UNCONDITIONAL_REG),
    DoubleEntry(0x3, 0x0, 0x0, 0x0, BRANCH_UNCONDITIONAL_IMM),
    DoubleEntry(0x3, 0x1, 0x8, 0x0, BRANCH_COMPARE),
    DoubleEntry(0x3, 0x1, 0x8, 0x8, BRANCH_TEST)]

  function BranchGetGroup(instr: bv32): BranchGroup {
    FirstDoubleMatch(BRANCH_TABLE, GetBitRegion(instr, 29, 31), GetBitRegion(instr, 22, 25), 0, BRANCH_UNALLOCATED)
  }

  datatype DataReg =
    | REG_3_SOURCES | REG_2_SOURCES | REG_1_SOURCE | REG_LOGICAL_SHIFT
    | REG_ADDSUB_SHIFT | REG_ADDSUB_EXTEND | REG_ADDSUB_CARRY
    | REG_COND_COMP_REG | REG_COND_COMP_IMM | REG_COND_SEL | REG_UNALLOCATED

  function DataRegGetGroup(instr: bv32): DataReg {
    var op0 := GetSingleBit(instr, 30);
    var op1 := GetSingleBit(instr, 28);
    var op2 := GetBitRegion(instr, 21, 24);
    var op3 := GetSingleBit(instr, 11);
    if op1 == 0 then
      if GetSingleBit(op2, 3) == 0 then REG_LOGICAL_SHIFT
      else if op2 & 0x9 == 0x8 then REG_ADDSUB_SHIFT
      else if op2 & 0x9 == 0x9 then REG_ADDSUB_EXTEND
      else REG_UNALLOCATED
    else if op2 == 0 then REG_ADDSUB_CARRY
    else if op2 == 2 then if op3 != 0 then REG_COND_COMP_IMM else REG_COND_COMP_REG
    else if op2 == 4 then REG_COND_SEL
    else if op2 == 6 then if op0 == 0 then REG_2_SOURCES else REG_1_SOURCE
    else if op2 & 0x8 == 0x8 then REG_3_SOURCES
    else REG_UNALLOCATED
  }

  // ---- what the dispatch decides ----

  lemma TwoEntries<G>(table: seq<Entry<G>>, op: bv32, i: nat, none: G)
    requires i + 2 <= |table|
    ensures FirstMatch(table, op, i, none) ==
            if table[i].Matches(op) then table[i].group
            else if table[i + 1].Matches(op) then table[i + 1].group
            else FirstMatch(table, op, i + 2, none)
  {
  }

  lemma SixEntries<G>(table: seq<Entry<G>>, op: bv32, none: G)
    requires |table| == 6
    ensures FirstMatch(table, op, 0, none) ==
            if table[0].Matches(op) then table[0].group
            else if table[1].Matches(op) then table[1].group
            else if table[2].Matches(op) then table[2].group
            else if table[3].Matches(op) then table[3].group
            else if table[4].Matches(op) then table[4].group
            else if table[5].Matches(op) then table[5].group
            else none
  {
    TwoEntries(table, op, 0, none);
    TwoEntries(table, op, 2, none);
    TwoEntries(table, op, 4, none);
  }

  /** Data processing on immediates is 100x in bits 28 to 25; data processing on registers is x101. */
  lemma TopGroups(instr: bv32)
    ensures InstrGetGroup(instr) == L1_DATA_IMM <==> instr & 0x1C000000 == 0x10000000
    ensures InstrGetGroup(instr) == L1_DATA_REG <==> instr & 0x0E000000 == 0x0A000000
  {
    SixEntries(TOP_TABLE, GetBitRegion(instr, 25, 29), L1_UNALLOCATED);
  }

  /** Logical (immediate) is 100100 in bits 28 to 23, add/subtract (immediate) is 10001x there. */
  lemma ImmediateClasses(instr: bv32)
    ensures InstrGetGroup(instr) == L1_DATA_IMM && DataImmGetGroup(instr) == IMM_LOGICAL_IMM
            <==> instr & 0x1F800000 == 0x12000000
    ensures InstrGetGroup(instr) == L1_DATA_IMM && DataImmGetGroup(instr) == IMM_ADDSUB_IMM
            <==> instr & 0x1F000000 == 0x11000000
  {
    TopGroups(instr);
    SixEntries(DATA_IMM_TABLE, GetBitRegion(instr, 23, 25), IMM_UNALLOCATED);
  }

  /** Logical (shifted register) is 01010 in bits 28 to 24; add/subtract (shifted register) is 01011
      there with bit 21 clear. */
  lemma RegisterClasses(instr: bv32)
    ensures InstrGetGroup(instr) == L1_DATA_REG && DataRegGetGroup(instr) == REG_LOGICAL_SHIFT
            <==> instr & 0x1F000000 == 0x0A000000
    ensures InstrGetGroup(instr) == L1_DATA_REG && DataRegGetGroup(instr) == REG_ADDSUB_SHIFT
            <==> instr & 0x1F200000 == 0x0B000000
  {
    TopGroups(instr);
  }

  lemma TwoDoubleEntries<G>(table: seq<DoubleEntry<G>>, op0: bv32, op1: bv32, i: nat, none: G)
    requires i + 2 <= |table|
    ensures FirstDoubleMatch(table, op0, op1, i, none) ==
            if table[i].Matches(op0, op1) then table[i].group
            else if table[i + 1].Matches(op0, op1) then table[i + 1].group
            else FirstDoubleMatch(table, op0, op1, i + 2, none)
  {
  }

  lemma SevenEntries<G>(table: seq<DoubleEntry<G>>, op0: bv32, op1: bv32, none: G)
    requires |table| == 7
    ensures FirstDoubleMatch(table, op0, op1, 0, none) ==
            if table[0].Matches(op0, op1) then table[0].group
            else if table[1].Matches(op0, op1) then table[1].group
            else if table[2].Matches(op0, op1) then table[2].group
            else if table[3].Matches(op0, op1) then table[3].group
            else if table[4].Matches(op0, op1) then table[4].group
            else if table[5].Matches(op0, op1) then table[5].group
            else if table[6].Matches(op0, op1) then table[6].group
            else none
  {
    TwoDoubleEntries(table, op0, op1, 0, none);
    TwoDoubleEntries(table, op0, op1, 2, none);
    TwoDoubleEntries(table, op0, op1, 4, none);
  }

  /** Branches, exceptions and system instructions are 101x in bits 28 to 25. */
  lemma BranchGroups(instr: bv32)
    ensures InstrGetGroup(instr) == L1_BRANCH <==> instr & 0x1C000000 == 0x14000000
  {
    SixEntries(TOP_TABLE, GetBitRegion(instr, 25, 29), L1_UNALLOCATED);
  }

  /** Unconditional branch (immediate) is x00101 in bits 31 to 26; unconditional branch (register) is
      1101011 in bits 31 to 25. */
  lemma BranchClasses(instr: bv32)
    ensures InstrGetGroup(instr) == L1_BRANCH && BranchGetGroup(instr) == BRANCH_UNCONDITIONAL_IMM
            <==> instr & 0x7C000000 == 0x14000000
    ensures InstrGetGroup(instr) == L1_BRANCH && BranchGetGroup(instr) == BRANCH_UNCONDITIONAL_REG
            <==> instr & 0xFE000000 == 0xD6000000
  {
    BranchGroups(instr);
    SevenEntries(BRANCH_TABLE, GetBitRegion(instr, 29, 31), GetBitRegion(instr, 22, 25), BRANCH_UNALLOCATED);
  }
}
